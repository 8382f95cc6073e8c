/**
The metaserver as a crash-recoverable replicated table: in-memory tables, the store,
and at most one structural operation that still owes the store some writes. Every
interleaving of requests, store writes, heartbeats, sweeps and crashes is a sequence
of the events below, and every one of them keeps tables and store in step.
*/
module MetaProtocol {
  import opened Options
  import opened SharePath
  import opened MetaStore
  import opened MetaTables
  import opened MetaAgreement
  import opened MetaCommits

  /** What the holder of the write-order lock is doing; `Writing([])` is nobody. */
  datatype Phase =
    | Writing(ws: seq<Write>)
    | Allocating(req: Req)
    | Allocated(req: Req, num: nat)

  datatype Sys = Sys(mem: Mem, store: Store, phase: Phase)

  datatype Event =
    | Register(req: Req, now: int, pick: Option<nat>)
    | Alloc
    | Finish(now: int)
    | GetRoots(user: string, now: int, choice: Option<nat>)
    | RootShare(owner: string, grantee: string, path: string)
    | RootUnshare(owner: string, grantee: string, path: string)
    | DeregisterNode(fsId: string, address: string, pick: Option<nat>)
    | WriteStep
    | MoveOne(user: string)
    | Heartbeat(fsId: string, address: string, now: int)
    | Sweep(now: int)
    | SetPurge(allow: bool)
    | Navigate(user: string, root: string, now: int)
    | Crash(live: map<string, Live>, order: seq<Grant>, now: int, allowPurge: bool, timeout: int)

  datatype Reason =
    | Bad(why: Refusal) | NameMissing | NoSuchUser(name: string) | HomeAway(home: string) | NoHealthyNode
    | UnknownNode | OtherAddress(registered: string) | NodeDown | NoAccess

  /** What the caller learns. */
  datatype Outcome =
    | Done
    | Refused(reason: Reason)
    | Roots(entries: seq<Visible>)
    | Routed(address: string)
    | Quiet

  predicate Idle(sys: Sys) {
    sys.phase == Writing([])
  }

  // ---------------------------------------------------------------- events

  /** Nobody healthy, or a healthy node with the fewest users. */
  ghost predicate Placement(m: Mem, now: int, choice: Option<nat>) {
    match choice
    case Some(n) => LeastLoaded(m, now, n)
    case None => forall n :: n in m.nodes ==> !IsHealthy(m, m.nodes[n], now)
  }

  /** When an event can happen, and which answers a scan of a table may give. */
  ghost predicate Enabled(sys: Sys, e: Event) {
    match e
    case Register(req, _, pick) => Idle(sys) && FoundAt(sys.mem, req.address, pick)
    case Alloc => sys.phase.Allocating?
    case Finish(_) => sys.phase.Allocated?
    case GetRoots(user, now, choice) =>
      (user == "" || user in sys.mem.users || Idle(sys)) && Placement(sys.mem, now, choice)
    case RootShare(_, _, _) => Idle(sys)
    case RootUnshare(_, _, _) => Idle(sys)
    case DeregisterNode(fsId, address, pick) => Idle(sys) && FoundAt(sys.mem, address, pick)
    case WriteStep => sys.phase.Writing? && sys.phase.ws != []
    case MoveOne(user) =>
      && sys.phase.Writing? && sys.phase.ws != [] && sys.phase.ws[0].MoveUsers?
      && user in sys.store.users && sys.store.users[user] == sys.phase.ws[0].old_
    case Heartbeat(_, _, _) => true
    case Sweep(_) => true
    case SetPurge(_) => true
    case Navigate(_, _, _) => true
    case Crash(_, order, _, _, _) => Lists(sys.store.shares, order)
  }

  ghost function DoRegister(sys: Sys, req: Req, now: int, pick: Option<nat>): (Sys, Outcome)
    requires FoundAt(sys.mem, req.address, pick)
  {
    match Begin(sys.mem, req, now, pick)
    case Refuse(why) => (sys, Refused(Bad(why)))
    case Allocate => (sys.(phase := Allocating(req)), Quiet)
    case Proceed(num, adoptFrom) =>
      (Sys(Commit(sys.mem, req, num, now), sys.store, Writing(RegisterWrites(sys.mem, req, num, adoptFrom))), Done)
  }

  /** The store hands out a number for the new node. */
  ghost function DoAlloc(sys: Sys): (Sys, Outcome)
    requires sys.phase.Allocating?
  {
    var req := sys.phase.req;
    var nodeId := ResolveNodeID(req.fsId, req.address);
    var s := Apply(sys.store, Upsert(nodeId, req.address));
    (Sys(sys.mem, s, Allocated(req, s.nodes[nodeId].num)), Quiet)
  }

  /** The tables are locked again and the registration is checked once more. */
  ghost function DoFinish(sys: Sys, now: int): (Sys, Outcome)
    requires sys.phase.Allocated?
  {
    var req, num := sys.phase.req, sys.phase.num;
    var nodeId := ResolveNodeID(req.fsId, req.address);
    if num in sys.mem.nodes then (sys.(phase := Writing([RemoveNode(nodeId)])), Refused(Bad(NumberTaken)))
    else if Conflict(sys.mem, nodeId, Some(num), req.users) then
      (sys.(phase := Writing([RemoveNode(nodeId)])), Refused(Bad(UserElsewhere)))
    else (Sys(Commit(sys.mem, req, num, now), sys.store, Writing(RegisterWrites(sys.mem, req, num, None))), Done)
  }

  function VisibleTo(m: Mem, user: string): seq<Visible> {
    if user in m.shared then m.shared[user] else []
  }

  /** The roots a user may open: their own, then everything shared with them. */
  function RootsOf(m: Mem, user: string): seq<Visible> {
    [Visible(user, user)] + VisibleTo(m, user)
  }

  ghost function DoGetRoots(sys: Sys, user: string, choice: Option<nat>): (Sys, Outcome)
    requires choice.Some? ==> choice.value in sys.mem.nodes
  {
    var m := sys.mem;
    if user == "" then (sys, Refused(NameMissing))
    else if user in m.users then (sys, Roots(RootsOf(m, user)))
    else if user in m.orphans then (sys, Refused(HomeAway(m.orphans[user])))
    else if choice.None? then (sys, Refused(NoHealthyNode))
    else (Sys(Login(m, user, choice.value), sys.store, Writing([Assign({user}, m.nodes[choice.value].id)])), Roots([Visible(user, user)]))
  }

  function DoShare(sys: Sys, owner: string, grantee: string, path: string): (Sys, Outcome) {
    var g := Grant(grantee, owner, Normalize(path));
    if owner !in sys.mem.users then (sys, Refused(NoSuchUser(owner)))
    else if grantee !in sys.mem.users then (sys, Refused(NoSuchUser(grantee)))
    else if InMem(sys.mem.shared, g) then (sys, Done)
    else (Sys(Share(sys.mem, g), sys.store, Writing([AddShares({g})])), Done)
  }

  function DoUnshare(sys: Sys, owner: string, grantee: string, path: string): (Sys, Outcome) {
    var g := Grant(grantee, owner, Normalize(path));
    if owner !in sys.mem.users then (sys, Refused(NoSuchUser(owner)))
    else if grantee !in sys.mem.users then (sys, Refused(NoSuchUser(grantee)))
    else (Sys(Unshare(sys.mem, g), sys.store, Writing([RemoveShare(g)])), Done)
  }

  ghost function DoDeregister(sys: Sys, fsId: string, address: string, pick: Option<nat>): (Sys, Outcome)
    requires pick.Some? ==> pick.value in sys.mem.nodes
  {
    var (num, nodeId) := Target(sys.mem, fsId, pick);
    if fsId == "" && address == "" then (sys, Refused(NameMissing))
    else if num.None? && Released(sys.mem, num, nodeId) == {} then (sys, Done)
    else (Sys(Deregister(sys.mem, num, nodeId), sys.store, Writing(DeregisterWrites(sys.mem, num, nodeId))), Done)
  }

  /** One pending document write; a rename first turns into its three. */
  function DoWrite(sys: Sys): Sys
    requires sys.phase.Writing? && sys.phase.ws != []
  {
    var w, rest := sys.phase.ws[0], sys.phase.ws[1..];
    if w.Rename? then sys.(phase := Writing(Expand(sys.store, w.old_, w.new_) + rest))
    else Sys(sys.mem, Apply(sys.store, w), Writing(rest))
  }

  ghost function DoHeartbeat(m: Mem, fsId: string, address: string, now: int): (Mem, Outcome) {
    if address == "" then (m, Refused(Bad(EmptyAddress)))
    else
      match FindNode(m, ResolveNodeID(fsId, address))
      case None => (m, Refused(UnknownNode))
      case Some(n) =>
        if m.nodes[n].address != address then (m, Refused(OtherAddress(m.nodes[n].address)))
        else (m.(nodes := m.nodes[n := m.nodes[n].(lastSeen := now, status := Healthy)]), Done)
  }

  function SweptNode(m: Mem, n: Node, now: int): Node {
    if IsHealthy(m, n, now) then n else n.(status := Stale)
  }

  function Swept(m: Mem, now: int): Mem {
    m.(nodes := map n | n in m.nodes :: SweptNode(m, m.nodes[n], now))
  }

  predicate MaySee(m: Mem, user: string, root: string) {
    user == root || exists k :: 0 <= k < |VisibleTo(m, user)| && VisibleTo(m, user)[k].owner == root
  }

  function DoNavigate(m: Mem, user: string, root: string, now: int): Outcome {
    if user == "" || root == "" then Refused(NameMissing)
    else if user !in m.users then Refused(NoSuchUser(user))
    else if root !in m.users then Refused(NoSuchUser(root))
    else if m.users[root] !in m.nodes || !IsHealthy(m, m.nodes[m.users[root]], now) then Refused(NodeDown)
    else if !MaySee(m, user, root) then Refused(NoAccess)
    else Outcome.Routed(m.nodes[m.users[root]].address)
  }

  ghost function Step(sys: Sys, e: Event): (Sys, Outcome)
    requires Enabled(sys, e)
  {
    match e
    case Register(req, now, pick) => DoRegister(sys, req, now, pick)
    case Alloc => DoAlloc(sys)
    case Finish(now) => DoFinish(sys, now)
    case GetRoots(user, _, choice) => DoGetRoots(sys, user, choice)
    case RootShare(owner, grantee, path) => DoShare(sys, owner, grantee, path)
    case RootUnshare(owner, grantee, path) => DoUnshare(sys, owner, grantee, path)
    case DeregisterNode(fsId, address, pick) => DoDeregister(sys, fsId, address, pick)
    case WriteStep => (DoWrite(sys), Quiet)
    case MoveOne(user) => (sys.(store := sys.store.(users := sys.store.users[user := sys.phase.ws[0].new_])), Quiet)
    case Heartbeat(fsId, address, now) =>
      var (m, r) := DoHeartbeat(sys.mem, fsId, address, now);
      (sys.(mem := m), r)
    case Sweep(now) => (sys.(mem := Swept(sys.mem, now)), Quiet)
    case SetPurge(allow) => (sys.(mem := sys.mem.(allowPurge := allow)), Quiet)
    case Navigate(user, root, now) => (sys, DoNavigate(sys.mem, user, root, now))
    case Crash(live, order, now, allowPurge, timeout) =>
      (Sys(Hydrate(sys.store, live, order, now, allowPurge, timeout), sys.store, Writing([])), Quiet)
  }

  // ---------------------------------------------------------------- invariant

  /** The store once the running operation has issued, or taken back, what it owes. */
  function Settled(sys: Sys): Store {
    match sys.phase
    case Writing(ws) => ApplyAll(sys.store, ws)
    case Allocating(_) => sys.store
    case Allocated(req, _) => Apply(sys.store, RemoveNode(ResolveNodeID(req.fsId, req.address)))
  }

  /** A registration that is waiting for, or holds, a fresh number still passes validation. */
  ghost predicate Admissible(m: Mem, req: Req) {
    && req.address != ""
    && FindNode(m, ResolveNodeID(req.fsId, req.address)).None?
    && !Conflict(m, ResolveNodeID(req.fsId, req.address), None, req.users)
  }

  ghost predicate PhaseInv(sys: Sys) {
    match sys.phase
    case Writing(ws) => Safe(sys.store, ws)
    case Allocating(req) => Admissible(sys.mem, req)
    case Allocated(req, num) =>
      var nodeId := ResolveNodeID(req.fsId, req.address);
      && Admissible(sys.mem, req) && num !in sys.mem.nodes
      && nodeId in sys.store.nodes && sys.store.nodes[nodeId] == NodeRec(num, req.address)
  }

  /** Tables well formed, store well formed, and the two equal up to the writes still owed. */
  ghost predicate Inv(sys: Sys) {
    MemInv(sys.mem) && StoreInv(sys.store) && PhaseInv(sys) && Agree(sys.mem, Settled(sys))
  }

  // ---------------------------------------------------------------- steps: registration

  lemma BeginProceeds(m: Mem, req: Req, now: int, pick: Option<nat>, num: nat, adoptFrom: Option<string>)
    requires MemInv(m) && FoundAt(m, req.address, pick) && Begin(m, req, now, pick) == Proceed(num, adoptFrom)
    ensures MayCommit(m, req, num) && Entry(m, req, num, adoptFrom)
    ensures adoptFrom.Some? ==> adoptFrom.value != ResolveNodeID(req.fsId, req.address)
  {
    hide Conflict;
    var nodeId := ResolveNodeID(req.fsId, req.address);
    if adoptFrom.Some? {
      assert !Registered(m, nodeId);
      forall n | n in m.nodes ensures m.nodes[n].id != nodeId { }
    }
  }

  lemma RegisterWritesHarmless(m: Mem, req: Req, num: nat, adoptFrom: Option<string>)
    requires ResolveNodeID(req.fsId, req.address) != ""
    ensures forall w :: w in RegisterWrites(m, req, num, adoptFrom) ==> Harmless(w)
  {
    hide Missing, Incoming, Grants, ResolveNodeID;
  }

  lemma RegisterKeepsInv(sys: Sys, req: Req, now: int, pick: Option<nat>)
    requires Inv(sys) && Idle(sys) && FoundAt(sys.mem, req.address, pick)
    ensures Inv(DoRegister(sys, req, now, pick).0)
  {
    hide MemInv, StoreInv, Agree, Commit, RegisterWrites, Safe, Conflict, FoundAt, Harmless;
    var m, s := sys.mem, sys.store;
    match Begin(m, req, now, pick)
    case Refuse(_) =>
    case Allocate =>
      assert Admissible(m, req);
    case Proceed(num, adoptFrom) =>
      BeginProceeds(m, req, now, pick, num, adoptFrom);
      RegisterAgrees(s, m, req, num, now, adoptFrom);
      RegisterWritesHarmless(m, req, num, adoptFrom);
      HarmlessSafe(s, RegisterWrites(m, req, num, adoptFrom));
  }

  lemma StoredIsRegistered(m: Mem, s: Store, id: string)
    requires SameNodes(m, s) && id in s.nodes && id != ""
    ensures FindNode(m, id).Some?
  {
    assert Registered(m, id);
  }

  lemma NumbersBelowCounter(m: Mem, s: Store, n: nat)
    requires SameNodes(m, s) && StoreInv(s) && n in m.nodes
    ensures n < s.next
  {
    assert s.nodes[m.nodes[n].id].num == n;
  }

  /** A fresh number is one no table entry has. */
  lemma AllocKeepsInv(sys: Sys)
    requires Inv(sys) && sys.phase.Allocating?
    ensures Inv(DoAlloc(sys).0)
  {
    hide Conflict, SameHomes, SharesRecorded;
    var m, s, req := sys.mem, sys.store, sys.phase.req;
    var nodeId := ResolveNodeID(req.fsId, req.address);
    if nodeId in s.nodes { StoredIsRegistered(m, s, nodeId); assert false; }
    var t := Apply(s, Upsert(nodeId, req.address));
    ApplyKeepsInv(s, Upsert(nodeId, req.address));
    assert Apply(t, RemoveNode(nodeId)).nodes == s.nodes;
    SameDocuments(m, s, Apply(t, RemoveNode(nodeId)));
    if s.next in m.nodes { NumbersBelowCounter(m, s, s.next); assert false; }
  }

  lemma SameDocuments(m: Mem, s: Store, t: Store)
    requires Agree(m, s) && t.nodes == s.nodes && t.users == s.users && t.shares == s.shares
    ensures Agree(m, t)
  {
    forall u ensures HomeOf(m, u) == StoredHome(t, u) { assert HomeOf(m, u) == StoredHome(s, u); }
  }

  /** The tables with the fresh node's empty entry, as the handler inserts it before committing. */
  function WithFresh(m: Mem, req: Req, num: nat, now: int): Mem {
    m.(nodes := m.nodes[num := Node(ResolveNodeID(req.fsId, req.address), req.address, 0, now, Healthy)])
  }

  lemma FreshMayCommit(m: Mem, req: Req, num: nat, now: int)
    requires MemInv(m) && Admissible(m, req) && num !in m.nodes
    ensures var k := WithFresh(m, req, num, now); MayCommit(k, req, num) && Entry(k, req, num, None)
  {
    hide Hosted;
    var nodeId := ResolveNodeID(req.fsId, req.address);
    forall n | n in m.nodes ensures m.nodes[n].id != nodeId { assert !Registered(m, nodeId); }
  }

  lemma FreshAgrees(m: Mem, s: Store, req: Req, num: nat, now: int)
    requires MemInv(m) && num !in m.nodes
    requires var nodeId := ResolveNodeID(req.fsId, req.address);
      nodeId in s.nodes && s.nodes[nodeId] == NodeRec(num, req.address) && Agree(m, Apply(s, RemoveNode(nodeId)))
    ensures Agree(WithFresh(m, req, num, now), s)
  {
    hide LoadsExact, OrphansApart, ResolveNodeID;
    var nodeId := ResolveNodeID(req.fsId, req.address);
    var t := Apply(s, RemoveNode(nodeId));
    var k := WithFresh(m, req, num, now);
    assert SameNodes(k, s) by {
      hide SameHomes, SharesRecorded, UsersRouted;
      forall a | a in s.nodes ensures s.nodes[a].num in k.nodes && k.nodes[s.nodes[a].num].id == a {
        if a != nodeId { assert a in t.nodes; }
      }
    }
    assert SameHomes(k, s) by {
      hide SameNodes, SharesRecorded;
      forall u ensures HomeOf(k, u) == StoredHome(s, u) { assert HomeOf(m, u) == StoredHome(t, u); }
    }
  }

  /** Neither late refusal can happen: a registration that got its number commits. */
  lemma FinishSucceeds(sys: Sys, now: int)
    requires Inv(sys) && sys.phase.Allocated?
    ensures DoFinish(sys, now).1 == Done
    ensures DoFinish(sys, now).0.mem == Commit(sys.mem, sys.phase.req, sys.phase.num, now)
  {
    hide MemInv, StoreInv, Agree, Commit, RegisterWrites;
    assert forall u :: u in sys.mem.users && u in sys.phase.req.users ==>
      Conflict(sys.mem, ResolveNodeID(sys.phase.req.fsId, sys.phase.req.address), None, sys.phase.req.users);
  }

  lemma FinishKeepsInv(sys: Sys, now: int)
    requires Inv(sys) && sys.phase.Allocated?
    ensures Inv(DoFinish(sys, now).0)
  {
    hide MemInv, StoreInv, Agree, RegisterWrites, Safe, Conflict, Harmless, MayCommit, Entry, CommitUsers, CommitShared, Missing;
    var m, s, req, num := sys.mem, sys.store, sys.phase.req, sys.phase.num;
    FinishSucceeds(sys, now);
    FreshMayCommit(m, req, num, now);
    FreshAgrees(m, s, req, num, now);
    var k := WithFresh(m, req, num, now);
    RegisterAgrees(s, k, req, num, now, None);
    FreshIrrelevant(m, req, num, now);
    RegisterWritesHarmless(k, req, num, None);
    HarmlessSafe(s, RegisterWrites(k, req, num, None));
  }

  lemma FreshIrrelevant(m: Mem, req: Req, num: nat, now: int)
    ensures var k := WithFresh(m, req, num, now);
      Commit(k, req, num, now) == Commit(m, req, num, now) && RegisterWrites(k, req, num, None) == RegisterWrites(m, req, num, None)
  {
    hide Hosted, Incoming, Grants, Missing, Claimed, CommitUsers, CommitShared;
    var k := WithFresh(m, req, num, now);
    SameRegistration(m, k, req, num, ResolveNodeID(req.fsId, req.address));
    assert Commit(k, req, num, now).nodes == Commit(m, req, num, now).nodes;
  }

  /** A registration reads only the user, orphan and share tables. */
  lemma SameRegistration(m: Mem, k: Mem, req: Req, num: nat, nodeId: string)
    requires k.users == m.users && k.orphans == m.orphans && k.shared == m.shared && k.allowPurge == m.allowPurge
    ensures Missing(k, req, num) == Missing(m, req, num) && Claimed(k, nodeId) == Claimed(m, nodeId)
    ensures CommitUsers(k, req, num, nodeId) == CommitUsers(m, req, num, nodeId)
    ensures CommitShared(k, req, num, nodeId) == CommitShared(m, req, num, nodeId)
  {
    hide Hosted, Incoming, Grants, AddGrants, DropOwners, WithLists, RoutedTo;
    assert Claimed(k, nodeId) == Claimed(m, nodeId);
  }

  // ---------------------------------------------------------------- steps: other operations

  lemma OneWriteSafe(s: Store, w: Write)
    requires StoreInv(s) && Harmless(w)
    ensures Safe(s, [w]) && ApplyAll(s, [w]) == Apply(s, w)
  {
    hide StoreInv;
    HarmlessSafe(s, [w]);
    ApplyOne(s, w);
  }

  lemma GetRootsKeepsInv(sys: Sys, user: string, now: int, choice: Option<nat>)
    requires Inv(sys) && Enabled(sys, GetRoots(user, now, choice))
    ensures Inv(DoGetRoots(sys, user, choice).0)
  {
    hide MemInv, StoreInv, Agree, Login, Safe, Apply, ApplyAll;
    var m := sys.mem;
    if user != "" && user !in m.users && user !in m.orphans && choice.Some? {
      assert ApplyAll(sys.store, []) == sys.store by { EmptyWrites(sys.store); }
      LoginAgrees(sys.store, m, user, choice.value);
      OneWriteSafe(sys.store, Assign({user}, m.nodes[choice.value].id));
    }
  }

  lemma EmptyWrites(s: Store)
    ensures ApplyAll(s, []) == s
  {
  }

  lemma ShareKeepsInv(sys: Sys, owner: string, grantee: string, path: string)
    requires Inv(sys) && Idle(sys)
    ensures Inv(DoShare(sys, owner, grantee, path).0) && Inv(DoUnshare(sys, owner, grantee, path).0)
  {
    hide MemInv, StoreInv, Agree, Safe, Apply, ApplyAll, Share, Unshare, InMem;
    var g := Grant(grantee, owner, Normalize(path));
    NormalizeIdempotent(path);
    EmptyWrites(sys.store);
    ShareAgrees(sys.store, sys.mem, g);
    UnshareAgrees(sys.store, sys.mem, g);
    OneWriteSafe(sys.store, AddShares({g}));
    OneWriteSafe(sys.store, RemoveShare(g));
  }

  lemma DeregisterKeepsInv(sys: Sys, fsId: string, address: string, pick: Option<nat>)
    requires Inv(sys) && Idle(sys) && FoundAt(sys.mem, address, pick)
    ensures Inv(DoDeregister(sys, fsId, address, pick).0)
  {
    hide MemInv, StoreInv, Agree, Safe, Apply, ApplyAll, Deregister, Released;
    var (num, nodeId) := Target(sys.mem, fsId, pick);
    EmptyWrites(sys.store);
    DeregisterAgrees(sys.store, sys.mem, num, nodeId);
    HarmlessSafe(sys.store, DeregisterWrites(sys.mem, num, nodeId));
  }

  // ---------------------------------------------------------------- steps: store writes

  lemma WriteKeepsInv(sys: Sys)
    requires Inv(sys) && Enabled(sys, WriteStep)
    ensures Inv(DoWrite(sys)) && Settled(DoWrite(sys)) == Settled(sys)
  {
    hide MemInv, StoreInv, Agree, Apply;
    var s, ws := sys.store, sys.phase.ws;
    var w, rest := ws[0], ws[1..];
    if w.Rename? {
      var three := Expand(s, w.old_, w.new_);
      ExpandIsRename(s, w.old_, w.new_);
      ApplyAllConcat(s, three, rest);
      RenameSafe(s, w.old_, w.new_, rest);
    } else {
      assert Safe(Apply(s, w), rest);
      assert StoreInv(Apply(s, w)) by { SafeStart(Apply(s, w), rest); }
    }
  }

  lemma SafeStart(s: Store, ws: seq<Write>)
    requires Safe(s, ws)
    ensures StoreInv(s)
  {
  }

  /** Every state on the way through a rename's three writes is well formed. */
  lemma RenameSafe(s: Store, from: string, to: string, rest: seq<Write>)
    requires StoreInv(s) && Safe(Apply(s, Rename(from, to)), rest)
    ensures Safe(s, Expand(s, from, to) + rest)
  {
    hide StoreInv, Harmless;
    var ws := Expand(s, from, to);
    if ws == [] {
      assert ws + rest == rest;
    } else {
      ExpandIsRename(s, from, to);
      ApplyThree(s, ws[0], ws[1], ws[2]);
      var s1 := Apply(s, ws[0]);
      var s2 := Apply(s1, ws[1]);
      assert Harmless(ws[0]) && Harmless(ws[1]) by { HarmlessMove(from, to); }
      ApplyKeepsInv(s, ws[0]);
      ApplyKeepsInv(s1, ws[1]);
      var all := ws + rest;
      assert all[1..][1..][1..] == rest;
      assert Safe(s2, all[1..][1..]);
      assert Safe(s1, all[1..]);
    }
  }

  lemma HarmlessMove(from: string, to: string)
    ensures Harmless(MoveUsers(from, to)) && Harmless(RemoveNode(from))
  {
  }

  lemma MoveOneKeepsInv(sys: Sys, user: string)
    requires Inv(sys) && Enabled(sys, MoveOne(user))
    ensures Inv(Step(sys, MoveOne(user)).0) && Settled(Step(sys, MoveOne(user)).0) == Settled(sys)
  {
    hide MemInv, Agree, Apply;
    var s, w := sys.store, sys.phase.ws[0];
    MoveOneAbsorbed(s, user, w.old_, w.new_);
    assert StoreInv(s.(users := s.users[user := w.new_])) by { hide Safe; }
  }

  // ---------------------------------------------------------------- steps: liveness

  /** Equal up to liveness and configuration. */
  ghost predicate SameRouting(m: Mem, k: Mem) {
    && k.users == m.users && k.orphans == m.orphans && k.shared == m.shared && k.nodes.Keys == m.nodes.Keys
    && forall n :: n in m.nodes ==>
         k.nodes[n].id == m.nodes[n].id && k.nodes[n].address == m.nodes[n].address && k.nodes[n].load == m.nodes[n].load
  }

  lemma SameRoutingWellFormed(m: Mem, k: Mem)
    requires SameRouting(m, k) && MemInv(m)
    ensures MemInv(k)
  {
    hide Hosted;
  }

  /** Whatever heartbeats and sweeps did meanwhile, rolling a login back leaves every load exact. */
  lemma LoginUndoKeepsLoads(m: Mem, user: string, n: nat)
    requires MemInv(m) && user in m.users && m.users[user] == n
    ensures MemInv(LoginUndo(m, user, n))
  {
    hide OrphansApart, LoadsExact;
    UndoLoads(m, user, n);
    UndoKeepsOrphans(m, user, n);
  }

  lemma UndoLoads(m: Mem, user: string, n: nat)
    requires LoadsExact(m) && n in m.nodes && user in m.users && m.users[user] == n
    ensures LoadsExact(LoginUndo(m, user, n))
  {
    var k := LoginUndo(m, user, n);
    assert user in Hosted(m.users, n);
    assert Hosted(k.users, n) == Hosted(m.users, n) - {user};
    forall a | a in m.nodes && a != n ensures Hosted(k.users, a) == Hosted(m.users, a) { }
  }

  lemma UndoKeepsOrphans(m: Mem, user: string, n: nat)
    requires OrphansApart(m)
    ensures OrphansApart(LoginUndo(m, user, n))
  {
  }

  /** Likewise for a deregistration: the tables route as they did before it, with exact loads. */
  lemma DeregisterUndoKeepsLoads(m: Mem, k: Mem, num: Option<nat>, nodeId: string, node: Node)
    requires MemInv(m) && SameRouting(Deregister(m, num, nodeId), k)
    requires num.Some? ==> num.value in m.nodes && node == m.nodes[num.value]
    ensures var gone := Released(m, num, nodeId);
      var u := DeregisterUndo(k, num, node, Restricted(m.users, gone), Restricted(m.orphans, gone), m.shared);
      SameRouting(m, u) && MemInv(u)
  {
    hide MemInv, Released, DropOwners, Restricted;
    var gone := Released(m, num, nodeId);
    var u := DeregisterUndo(k, num, node, Restricted(m.users, gone), Restricted(m.orphans, gone), m.shared);
    DeregisterUndoRestores(m, num, nodeId, node);
    SameRoutingWellFormed(m, u);
  }

  lemma SameRoutingAgrees(m: Mem, k: Mem, s: Store)
    requires SameRouting(m, k) && Agree(m, s)
    ensures Agree(k, s)
  {
    assert SameHomes(k, s) by {
      hide SameNodes, SharesRecorded;
      forall u ensures HomeOf(k, u) == StoredHome(s, u) { assert HomeOf(m, u) == StoredHome(s, u); }
    }
  }

  lemma SameRoutingKeepsInv(sys: Sys, k: Mem)
    requires Inv(sys) && SameRouting(sys.mem, k)
    ensures Inv(sys.(mem := k))
  {
    hide MemInv, StoreInv, Agree, Safe, Apply, ApplyAll;
    SameRoutingWellFormed(sys.mem, k);
    SameRoutingAgrees(sys.mem, k, Settled(sys));
    assert forall id :: Registered(k, id) ==> Registered(sys.mem, id) by {
      forall id | Registered(k, id) ensures Registered(sys.mem, id) {
        var n :| n in k.nodes && k.nodes[n].id == id;
        assert sys.mem.nodes[n].id == id;
      }
    }
  }

  /** A server that has just started on any well-formed store. */
  lemma StartInv(s: Store, live: map<string, Live>, order: seq<Grant>, now: int, allowPurge: bool, timeout: int)
    requires StoreInv(s) && Lists(s.shares, order)
    ensures Inv(Sys(Hydrate(s, live, order, now, allowPurge, timeout), s, Writing([])))
  {
    hide MemInv, StoreInv, Agree, Hydrate, Lists;
    var m := HydrateAgrees(s, live, order, now, allowPurge, timeout);
  }

  /** Every event of every interleaving keeps the invariant. */
  lemma StepKeepsInv(sys: Sys, e: Event)
    requires Inv(sys) && Enabled(sys, e)
    ensures Inv(Step(sys, e).0)
  {
    hide MemInv, PhaseInv, Agree, StoreInv, DoRegister, DoAlloc, DoFinish, DoGetRoots, DoShare, DoUnshare, DoDeregister, DoWrite, DoNavigate, Hydrate;
    match e
    case Register(req, now, pick) => RegisterKeepsInv(sys, req, now, pick);
    case Alloc => AllocKeepsInv(sys);
    case Finish(now) => FinishKeepsInv(sys, now);
    case GetRoots(user, now, choice) => GetRootsKeepsInv(sys, user, now, choice);
    case RootShare(owner, grantee, path) => ShareKeepsInv(sys, owner, grantee, path);
    case RootUnshare(owner, grantee, path) => ShareKeepsInv(sys, owner, grantee, path);
    case DeregisterNode(fsId, address, pick) => DeregisterKeepsInv(sys, fsId, address, pick);
    case WriteStep => WriteKeepsInv(sys);
    case MoveOne(user) => MoveOneKeepsInv(sys, user);
    case Heartbeat(fsId, address, now) => SameRoutingKeepsInv(sys, DoHeartbeat(sys.mem, fsId, address, now).0);
    case Sweep(now) => SameRoutingKeepsInv(sys, Swept(sys.mem, now));
    case SetPurge(allow) => SameRoutingKeepsInv(sys, sys.mem.(allowPurge := allow));
    case Navigate(_, _, _) =>
    case Crash(live, order, now, allowPurge, timeout) => StartInv(sys.store, live, order, now, allowPurge, timeout);
  }
}
