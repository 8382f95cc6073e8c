/**
What the metaserver's callers are told, and when: the exact condition of every answer,
in terms of the request and the tables alone.
*/
module MetaAnswers {
  import opened Options
  import opened SharePath
  import opened MetaStore
  import opened MetaTables
  import opened MetaAgreement
  import opened MetaCommits
  import opened MetaProtocol

  // ---------------------------------------------------------------- liveness

  /** Marked healthy, heard from at all, and not silent for longer than the timeout, if there is one;
      times are in seconds, the timeout in nanoseconds. */
  predicate Alive(m: Mem, n: nat, now: int)
    requires n in m.nodes
  {
    var node := m.nodes[n];
    node.status == Healthy && node.lastSeen != 0 && (m.timeout <= 0 || now - node.lastSeen <= m.timeout / 1_000_000_000)
  }

  lemma HealthyIsAlive(m: Mem, n: nat, now: int)
    requires n in m.nodes
    ensures IsHealthy(m, m.nodes[n], now) <==> Alive(m, n, now)
  {
  }

  /** A sweep turns exactly the nodes that are not alive stale, and changes nothing else. */
  lemma SweepExact(m: Mem, now: int)
    ensures var m' := Swept(m, now);
      && m' == m.(nodes := m'.nodes) && m'.nodes.Keys == m.nodes.Keys
      && forall n :: n in m.nodes ==> m'.nodes[n] == if Alive(m, n, now) then m.nodes[n] else m.nodes[n].(status := Stale)
  {
  }

  /** A restarted server takes a node's liveness from its document; what the document lacks counts as seen
      just now, and as healthy. */
  lemma HydratedLiveness(s: Store, live: map<string, Live>, order: seq<Grant>, now: int, allowPurge: bool, timeout: int, id: string)
    requires StoreInv(s) && id in s.nodes
    ensures var m := Hydrate(s, live, order, now, allowPurge, timeout);
      && m.allowPurge == allowPurge && m.timeout == timeout
      && s.nodes[id].num in m.nodes
      && var n := m.nodes[s.nodes[id].num];
      && n.id == id && n.address == s.nodes[id].address
      && n.lastSeen == (if id in live && live[id].lastSeen != 0 then live[id].lastSeen else now)
      && n.status == if id in live then live[id].status else Healthy
  {
    hide WithLists, HydrateShared, HydrateUsers, Hosted;
    assert Numbered(s, s.nodes[id].num);
    var a := NodeNamed(s, s.nodes[id].num);
    assert a == id;
  }

  // ---------------------------------------------------------------- routing

  /** `user` is `root` or has something of theirs. */
  ghost predicate HasAccess(m: Mem, user: string, root: string) {
    user == root || exists path :: InMem(m.shared, Grant(user, root, path))
  }

  lemma MaySeeIsAccess(m: Mem, user: string, root: string)
    ensures MaySee(m, user, root) <==> HasAccess(m, user, root)
  {
    if user != root && MaySee(m, user, root) {
      var k :| 0 <= k < |VisibleTo(m, user)| && VisibleTo(m, user)[k].owner == root;
      var e := VisibleTo(m, user)[k];
      assert InMem(m.shared, Grant(user, root, e.path)) by { assert e == Visible(root, e.path); }
    }
    if user != root && HasAccess(m, user, root) {
      var path :| InMem(m.shared, Grant(user, root, path));
      var k :| 0 <= k < |m.shared[user]| && m.shared[user][k] == Visible(root, path);
      assert VisibleTo(m, user)[k].owner == root;
    }
  }

  /** Both users are known by name. */
  predicate BothKnown(m: Mem, user: string, root: string) {
    user != "" && root != "" && user in m.users && root in m.users
  }

  predicate Reachable(m: Mem, root: string, now: int)
    requires root in m.users
  {
    m.users[root] in m.nodes && Alive(m, m.users[root], now)
  }

  /** A user is routed to a root if and only if both are known, the root's node is alive, and the user is its owner
      or has been given something of it; each refusal has its exact condition. */
  lemma NavigateExact(m: Mem, user: string, root: string, now: int)
    ensures var r := DoNavigate(m, user, root, now);
      && (r.Routed? <==> BothKnown(m, user, root) && Reachable(m, root, now) && HasAccess(m, user, root))
      && (r.Routed? ==> r.address == m.nodes[m.users[root]].address)
      && (r == Refused(NameMissing) <==> user == "" || root == "")
      && (forall x :: r == Refused(NoSuchUser(x)) <==>
            user != "" && root != "" && ((user !in m.users && x == user) || (user in m.users && root !in m.users && x == root)))
      && (r == Refused(NodeDown) <==> BothKnown(m, user, root) && !Reachable(m, root, now))
      && (r == Refused(NoAccess) <==> BothKnown(m, user, root) && Reachable(m, root, now) && !HasAccess(m, user, root))
  {
    hide MaySee, HasAccess;
    MaySeeIsAccess(m, user, root);
  }

  // ---------------------------------------------------------------- logins

  /** Alive, with no more users than any other node that is. */
  predicate FewestUsers(m: Mem, n: nat, now: int) {
    n in m.nodes && Alive(m, n, now) && forall k :: k in m.nodes && Alive(m, k, now) ==> m.nodes[n].load <= m.nodes[k].load
  }

  /** The first login of `user` on node `n`. */
  ghost predicate PlacedOn(m: Mem, m': Mem, user: string, n: nat) {
    && n in m.nodes
    && m'.users == m.users[user := n] && m'.orphans == m.orphans
    && m'.nodes == m.nodes[n := m.nodes[n].(load := m.nodes[n].load + 1)]
    && m'.shared == m.shared[user := []] && m'.allowPurge == m.allowPurge && m'.timeout == m.timeout
  }

  /** A known user gets their own root and everything shared with them, in order; a new one is placed on a live node
      with the fewest users, which is written to the store; each refusal has its exact condition. */
  lemma LoginExact(sys: Sys, user: string, now: int, choice: Option<nat>)
    requires Placement(sys.mem, now, choice)
    ensures var m := sys.mem; var (sys', r) := DoGetRoots(sys, user, choice);
      var isNew := user != "" && user !in m.users && user !in m.orphans;
      && (r.Roots? || r == Refused(NameMissing) || r == Refused(NoHealthyNode) || (r.Refused? && r.reason.HomeAway?))
      && (r.Refused? ==> sys' == sys)
      && (r == Refused(NameMissing) <==> user == "")
      && (forall home :: r == Refused(HomeAway(home)) <==> user != "" && user !in m.users && user in m.orphans && m.orphans[user] == home)
      && (r == Refused(NoHealthyNode) <==> isNew && forall n :: n in m.nodes ==> !Alive(m, n, now))
      && (r.Roots? <==> user != "" && (user in m.users || (isNew && exists n :: n in m.nodes && Alive(m, n, now))))
      && (r.Roots? && user in m.users ==>
            sys' == sys && r.entries == [Visible(user, user)] + (if user in m.shared then m.shared[user] else []))
      && (r.Roots? && isNew ==>
            && choice.Some? && FewestUsers(m, choice.value, now) && PlacedOn(m, sys'.mem, user, choice.value)
            && sys'.store == sys.store && sys'.phase == Writing([Assign({user}, m.nodes[choice.value].id)])
            && r.entries == [Visible(user, user)])
  {
    hide IsHealthy;
    forall n | n in sys.mem.nodes ensures IsHealthy(sys.mem, sys.mem.nodes[n], now) <==> Alive(sys.mem, n, now) {
      HealthyIsAlive(sys.mem, n, now);
    }
  }

  // ---------------------------------------------------------------- heartbeats

  /** The node that says it is `fsId`, or, from before nodes had ids, the one at `address`. */
  predicate Claims(m: Mem, n: nat, fsId: string, address: string) {
    n in m.nodes && m.nodes[n].id == if fsId != "" then fsId else "addr:" + address
  }

  lemma ClaimsIsFound(m: Mem, fsId: string, address: string)
    requires IdsDistinct(m)
    ensures var f := FindNode(m, ResolveNodeID(fsId, address));
      forall n: nat :: Claims(m, n, fsId, address) <==> f == Some(n)
  {
    var id := ResolveNodeID(fsId, address);
    assert id == if fsId != "" then fsId else "addr:" + address;
    forall n: nat ensures Claims(m, n, fsId, address) <==> FindNode(m, id) == Some(n) {
      if Claims(m, n, fsId, address) {
        assert Registered(m, id);
      }
    }
  }

  /** A heartbeat is accepted exactly from a registered node at its registered address, and refreshes that node alone. */
  lemma HeartbeatExact(m: Mem, fsId: string, address: string, now: int)
    requires IdsDistinct(m)
    ensures var (m', r) := DoHeartbeat(m, fsId, address, now);
      && (r == Done || r.Refused?) && (r.Refused? ==> m' == m)
      && (r == Refused(Bad(EmptyAddress)) <==> address == "")
      && (r == Refused(UnknownNode) <==> address != "" && forall n: nat :: !Claims(m, n, fsId, address))
      && (forall a :: r == Refused(OtherAddress(a)) <==>
            address != "" && a != address && exists n: nat :: Claims(m, n, fsId, address) && m.nodes[n].address == a)
      && (r == Done <==> address != "" && exists n: nat :: Claims(m, n, fsId, address) && m.nodes[n].address == address)
      && forall n: nat :: r == Done && Claims(m, n, fsId, address) ==> m' == m.(nodes := m.nodes[n := m.nodes[n].(lastSeen := now, status := Healthy)])
  {
    hide IdsDistinct, FindNode, ResolveNodeID, Claims;
    ClaimsIsFound(m, fsId, address);
    var f := FindNode(m, ResolveNodeID(fsId, address));
    if f.Some? {
      assert Claims(m, f.value, fsId, address);
    }
  }

  // ---------------------------------------------------------------- shares between users

  /** Sharing needs two known users and then succeeds; that grant, under the path's normal form, is visible
      afterwards and owed to the store unless it was visible already, and nothing else changes. */
  lemma ShareExact(sys: Sys, owner: string, grantee: string, path: string)
    ensures var m := sys.mem; var (sys', r) := DoShare(sys, owner, grantee, path);
      var g := Grant(grantee, owner, Normalize(path));
      && (r == Refused(NoSuchUser(owner)) || r == Refused(NoSuchUser(grantee)) || r == Done)
      && (r == Done <==> owner in m.users && grantee in m.users)
      && (r.Refused? ==> sys' == sys && r == Refused(NoSuchUser(if owner !in m.users then owner else grantee)))
      && sys'.store == sys.store && sys'.mem == m.(shared := sys'.mem.shared)
      && (r == Done ==>
            && (forall h :: InMem(sys'.mem.shared, h) <==> InMem(m.shared, h) || h == g)
            && sys'.phase == if InMem(m.shared, g) then sys.phase else Writing([AddShares({g})]))
  {
    hide Normalize;
  }

  /** Revoking needs two known users and then succeeds; that grant is invisible afterwards and the store
      is always told to delete it, and nothing else changes. */
  lemma UnshareExact(sys: Sys, owner: string, grantee: string, path: string)
    ensures var m := sys.mem; var (sys', r) := DoUnshare(sys, owner, grantee, path);
      var g := Grant(grantee, owner, Normalize(path));
      && (r == Refused(NoSuchUser(owner)) || r == Refused(NoSuchUser(grantee)) || r == Done)
      && (r == Done <==> owner in m.users && grantee in m.users)
      && (r.Refused? ==> sys' == sys && r == Refused(NoSuchUser(if owner !in m.users then owner else grantee)))
      && sys'.store == sys.store && sys'.mem == m.(shared := sys'.mem.shared)
      && (r == Done ==>
            && (forall h :: InMem(sys'.mem.shared, h) <==> InMem(m.shared, h) && h != g)
            && sys'.phase == Writing([RemoveShare(g)]))
  {
    hide Normalize, InMem, Unshare;
    var g := Grant(grantee, owner, Normalize(path));
    forall h ensures InMem(Unshare(sys.mem, g).shared, h) <==> InMem(sys.mem.shared, h) && h != g { UnshareHas(sys.mem, g, h); }
    UnshareKeepsRest(sys.mem, g);
  }

  lemma UnshareKeepsRest(m: Mem, g: Grant)
    ensures Unshare(m, g) == m.(shared := Unshare(m, g).shared)
  {
  }

  // ---------------------------------------------------------------- deregistration

  /** The id a deregistration means: the one given, or that of the node found at the address. */
  function Meant(m: Mem, fsId: string, pick: Option<nat>): string
    requires pick.Some? ==> pick.value in m.nodes
  {
    if fsId != "" then fsId else if pick.Some? then m.nodes[pick.value].id else ""
  }

  /** The user is routed to the node of this id or waits for it. */
  ghost predicate BelongsTo(m: Mem, u: string, id: string) {
    id != "" && HomeOf(m, u) == Some(id)
  }

  /** Deregistering is refused only without id and address; it removes the node meant with everyone routed to it or
      waiting for it and every share that involves one of them, and nothing else. */
  lemma DeregisterExact(sys: Sys, fsId: string, address: string, pick: Option<nat>)
    requires MemInv(sys.mem) && FoundAt(sys.mem, address, pick)
    ensures var m := sys.mem; var (sys', r) := DoDeregister(sys, fsId, address, pick);
      var id := Meant(m, fsId, pick);
      && (r == Done || r == Refused(NameMissing)) && (r == Refused(NameMissing) <==> fsId == "" && address == "")
      && (r.Refused? ==> sys' == sys)
      && (r == Done ==>
            && (forall n :: n in sys'.mem.nodes <==> n in m.nodes && m.nodes[n].id != id)
            && (forall n :: n in sys'.mem.nodes ==> n in m.nodes && sys'.mem.nodes[n] == m.nodes[n])
            && (forall u :: HomeOf(sys'.mem, u) == if BelongsTo(m, u, id) then None else HomeOf(m, u))
            && (forall g :: InMem(sys'.mem.shared, g) <==> InMem(m.shared, g) && !BelongsTo(m, g.owner, id) && !BelongsTo(m, g.grantee, id)))
  {
    hide IdsDistinct, InMem, LoadsExact, FindNode, Deregister, Released, HomeOf;
    var m := sys.mem;
    var (num, id) := Target(m, fsId, pick);
    assert id == Meant(m, fsId, pick);
    TargetIs(m, fsId, pick);
    var m' := Deregister(m, num, id);
    forall u ensures u in Released(m, num, id) <==> BelongsTo(m, u, id) { ReleasedIs(m, num, id, u); }
    if fsId != "" || address != "" {
      forall u ensures HomeOf(m', u) == if BelongsTo(m, u, id) then None else HomeOf(m, u) { DeregisterHome(m, num, id, u); }
      forall g ensures InMem(m'.shared, g) <==> InMem(m.shared, g) && g.owner !in Released(m, num, id) && g.grantee !in Released(m, num, id) {
        DeregisterShare(m, num, id, g);
      }
      DeregisterKeepsNodes(m, num, id);
      if num.None? && Released(m, num, id) == {} { NothingReleased(m, id); }
    }
  }

  lemma TargetIs(m: Mem, fsId: string, pick: Option<nat>)
    requires IdsDistinct(m) && (pick.Some? ==> pick.value in m.nodes)
    ensures var (num, id) := Target(m, fsId, pick);
      forall n :: n in m.nodes && m.nodes[n].id == id <==> num == Some(n)
  {
    var (num, id) := Target(m, fsId, pick);
    if id != "" {
      forall n | n in m.nodes && m.nodes[n].id == id ensures Registered(m, id) { }
    }
  }

  lemma ReleasedIs(m: Mem, num: Option<nat>, id: string, u: string)
    requires MemInv(m) && forall n :: n in m.nodes && m.nodes[n].id == id <==> num == Some(n)
    ensures u in Released(m, num, id) <==> BelongsTo(m, u, id)
  {
    hide LoadsExact;
  }

  lemma DeregisterHome(m: Mem, num: Option<nat>, id: string, u: string)
    requires MemInv(m) && forall n :: n in m.nodes && m.nodes[n].id == id <==> num == Some(n)
    ensures HomeOf(Deregister(m, num, id), u) == if BelongsTo(m, u, id) then None else HomeOf(m, u)
  {
    hide LoadsExact, DropOwners;
    ReleasedIs(m, num, id, u);
  }

  lemma DeregisterKeepsNodes(m: Mem, num: Option<nat>, id: string)
    ensures Deregister(m, num, id).nodes == if num.Some? then m.nodes - {num.value} else m.nodes
  {
  }

  lemma NothingReleased(m: Mem, id: string)
    requires MemInv(m) && Released(m, None, id) == {} && forall n :: n in m.nodes ==> m.nodes[n].id != id
    ensures forall u :: !BelongsTo(m, u, id)
  {
    hide LoadsExact;
    forall u ensures !BelongsTo(m, u, id) { assert u !in Released(m, None, id); }
  }

  /** What a deregistration means by its arguments: the id given, the id of some node at the address, or nothing. */
  ghost predicate NodeMeant(m: Mem, fsId: string, address: string, id: string) {
    if fsId != "" then id == fsId
    else if exists n :: n in m.nodes && m.nodes[n].address == address && address != "" then
      exists n :: n in m.nodes && m.nodes[n].address == address && m.nodes[n].id == id
    else id == ""
  }

  lemma MeantIs(m: Mem, fsId: string, address: string, pick: Option<nat>)
    requires FoundAt(m, address, pick)
    ensures NodeMeant(m, fsId, address, Target(m, fsId, pick).1) && Target(m, fsId, pick).1 == Meant(m, fsId, pick)
  {
  }

  ghost predicate StoredAt(s: Store, u: string, id: string) {
    id != "" && StoredHome(s, u) == Some(id)
  }

  /** The node is gone from tables and store, everyone at home on it has no home, and every share that involves one of them
      is gone; nothing else has changed. */
  ghost predicate DeregistrationLeft(m: Mem, s: Store, m': Mem, s': Store, id: string) {
    && (forall n :: n in m'.nodes <==> n in m.nodes && m.nodes[n].id != id)
    && (forall n :: n in m'.nodes ==> n in m.nodes && m'.nodes[n] == m.nodes[n])
    && (forall a :: a in s'.nodes <==> a in s.nodes && a != id)
    && (forall a :: a in s'.nodes ==> a in s.nodes && s'.nodes[a] == s.nodes[a])
    && (forall u :: StoredHome(s', u) == (if StoredAt(s, u, id) then None else StoredHome(s, u)) && HomeOf(m', u) == StoredHome(s', u))
    && (forall g :: InMem(m'.shared, g) <==> InMem(m.shared, g) && !StoredAt(s, g.owner, id) && !StoredAt(s, g.grantee, id))
    && (forall g :: g in s'.shares <==> g in s.shares && !StoredAt(s, g.owner, id) && !StoredAt(s, g.grantee, id))
  }

  lemma DeregistrationIs(m: Mem, s: Store, fsId: string, address: string, pick: Option<nat>)
    requires MemInv(m) && Agree(m, s) && FoundAt(m, address, pick) && !(fsId == "" && address == "")
    ensures var sys := DoDeregister(Sys(m, s, Writing([])), fsId, address, pick).0;
      DeregistrationLeft(m, s, sys.mem, ApplyAll(s, sys.phase.ws), Target(m, fsId, pick).1)
  {
    hide IdsDistinct, UsersRouted, OrphansApart, LoadsExact, SameNodes, SharesRecorded, Deregister, Released, DeregisterWrites, Target, HomeOf, StoredHome, InMem, ApplyAll;
    var sys := DoDeregister(Sys(m, s, Writing([])), fsId, address, pick).0;
    var (num, id) := Target(m, fsId, pick);
    MeantIs(m, fsId, address, pick);
    DeregisterExact(Sys(m, s, Writing([])), fsId, address, pick);
    TargetIs(m, fsId, pick);
    forall u ensures BelongsTo(m, u, id) <==> StoredAt(s, u, id) { assert HomeOf(m, u) == StoredHome(s, u); }
    DeregisteredStore(m, s, num, id);
    EmptyWrites(s);
    if num.None? && Released(m, num, id) == {} { NothingReleased(m, id); }
    var s' := ApplyAll(s, sys.phase.ws);
    assert s' == DeregisterEffect(s, m, num, id);
    forall u ensures StoredHome(s', u) == (if StoredAt(s, u, id) then None else StoredHome(s, u)) && HomeOf(sys.mem, u) == StoredHome(s', u) {
      assert HomeOf(m, u) == StoredHome(s, u);
      EffectHome(s, m, num, id, u);
    }
  }

  lemma EffectHome(s: Store, m: Mem, num: Option<nat>, id: string, u: string)
    ensures StoredHome(DeregisterEffect(s, m, num, id), u) == if u in Released(m, num, id) then None else StoredHome(s, u)
  {
    hide Released;
  }

  lemma DeregisteredStore(m: Mem, s: Store, num: Option<nat>, id: string)
    requires MemInv(m) && Agree(m, s) && forall n :: n in m.nodes && m.nodes[n].id == id <==> num == Some(n)
    ensures ApplyAll(s, DeregisterWrites(m, num, id)) == DeregisterEffect(s, m, num, id)
    ensures forall u :: u in Released(m, num, id) <==> StoredAt(s, u, id)
    ensures num.None? && Released(m, num, id) == {} ==> DeregisterEffect(s, m, num, id) == s
    ensures num.None? ==> id !in s.nodes
  {
    hide IdsDistinct, LoadsExact, SharesRecorded, Released, DeregisterWrites, ApplyAll;
    DeregisterWritesEffect(s, m, num, id);
    forall u ensures u in Released(m, num, id) <==> StoredAt(s, u, id) {
      ReleasedIs(m, num, id, u);
      assert HomeOf(m, u) == StoredHome(s, u);
    }
  }

  // ---------------------------------------------------------------- registration

  function IdOf(req: Req): string {
    if req.fsId != "" then req.fsId else "addr:" + req.address
  }

  /** The entry a registration takes over: the one of its id or, if there is none and it names an id, the
      legacy entry found at its address. */
  ghost predicate Takes(m: Mem, req: Req, pick: Option<nat>, n: nat) {
    && n in m.nodes
    && (m.nodes[n].id == IdOf(req)
        || (req.fsId != "" && pick == Some(n) && "addr:" <= m.nodes[n].id && forall k :: k in m.nodes ==> m.nodes[k].id != IdOf(req)))
  }

  /** The id is in use by a live node at another address. */
  ghost predicate HeldElsewhere(m: Mem, req: Req, now: int) {
    exists n :: n in m.nodes && m.nodes[n].id == IdOf(req) && m.nodes[n].address != req.address && Alive(m, n, now)
  }

  /** The user is routed to another entry than the one taken, or waits for another id. */
  ghost predicate Elsewhere(m: Mem, req: Req, pick: Option<nat>, u: string) {
    || (u in m.users && !Takes(m, req, pick, m.users[u]))
    || (u in m.orphans && m.orphans[u] != IdOf(req))
  }

  ghost predicate SomeElsewhere(m: Mem, req: Req, pick: Option<nat>) {
    exists u :: u in req.users && Elsewhere(m, req, pick, u)
  }

  /** Each answer of a registration's first critical section has its exact condition. */
  lemma RegisterExact(m: Mem, req: Req, now: int, pick: Option<nat>)
    requires MemInv(m) && FoundAt(m, req.address, pick)
    ensures var r := Begin(m, req, now, pick);
      var fine := req.address != "" && !HeldElsewhere(m, req, now);
      && (r == Refuse(EmptyAddress) <==> req.address == "")
      && (r == Refuse(IdInUse) <==> req.address != "" && HeldElsewhere(m, req, now))
      && (r == Refuse(UserElsewhere) <==> fine && SomeElsewhere(m, req, pick))
      && r != Refuse(NumberTaken)
      && (r == Allocate <==> fine && !SomeElsewhere(m, req, pick) && forall n: nat :: !Takes(m, req, pick, n))
      && (forall n: nat :: (exists from :: r == Proceed(n, from)) <==> fine && !SomeElsewhere(m, req, pick) && Takes(m, req, pick, n))
      && (r.Proceed? ==> r.adoptFrom == if m.nodes[r.num].id == IdOf(req) then None else Some(m.nodes[r.num].id))
  {
    hide LoadsExact, OrphansApart, IsHealthy, FindNode, Alive;
    var id := ResolveNodeID(req.fsId, req.address);
    assert id == IdOf(req);
    KnownIs(m, id);
    forall n | n in m.nodes ensures IsHealthy(m, m.nodes[n], now) <==> Alive(m, n, now) { HealthyIsAlive(m, n, now); }
    var known := FindNode(m, id);
    var adopt := known.None? && req.fsId != "" && pick.Some? && IsLegacy(m.nodes[pick.value].id);
    var num := if adopt then pick else known;
    forall n: nat ensures Takes(m, req, pick, n) <==> num == Some(n) { TakesIs(m, req, pick, n); }
    ConflictIs(m, req, pick, num);
  }

  lemma KnownIs(m: Mem, id: string)
    requires IdsDistinct(m) && id != ""
    ensures forall n: nat :: n in m.nodes && m.nodes[n].id == id <==> FindNode(m, id) == Some(n)
  {
    forall n | n in m.nodes && m.nodes[n].id == id ensures Registered(m, id) { }
  }

  lemma TakesIs(m: Mem, req: Req, pick: Option<nat>, n: nat)
    requires IdsDistinct(m) && FoundAt(m, req.address, pick)
    ensures var known := FindNode(m, IdOf(req));
      var adopt := known.None? && req.fsId != "" && pick.Some? && IsLegacy(m.nodes[pick.value].id);
      Takes(m, req, pick, n) <==> (if adopt then pick else known) == Some(n)
  {
    hide FindNode;
    KnownIs(m, IdOf(req));
  }

  lemma ConflictIs(m: Mem, req: Req, pick: Option<nat>, num: Option<nat>)
    requires forall n: nat :: Takes(m, req, pick, n) <==> num == Some(n)
    ensures Conflict(m, IdOf(req), num, req.users) <==> SomeElsewhere(m, req, pick)
  {
    hide Takes;
    forall u ensures Elsewhere(m, req, pick, u) <==>
      (u in m.users && (num.None? || m.users[u] != num.value)) || (u in m.orphans && m.orphans[u] != IdOf(req)) { }
  }

  // ---------------------------------------------------------------- what an accepted registration leaves

  /** The entry: taken over, or new under the next number; it has the id, the address and the users it hosts,
      and no other entry changes, in the tables or in the store. */
  ghost predicate EntryLeft(m: Mem, s: Store, m': Mem, s': Store, req: Req, num: nat, now: int) {
    var id := IdOf(req);
    && m'.nodes.Keys == m.nodes.Keys + {num}
    && m'.nodes[num] == Node(id, req.address, |set u | u in m'.users && m'.users[u] == num|, now, Healthy)
    && (forall n :: n in m.nodes && n != num ==> m'.nodes[n] == m.nodes[n])
    && id in s'.nodes && s'.nodes[id] == NodeRec(num, req.address)
    && (forall a :: a in s'.nodes && a != id ==> a in s.nodes && s'.nodes[a] == s.nodes[a] && s.nodes[a].num != num)
    && (forall a :: a in s.nodes && s.nodes[a].num != num ==> a in s'.nodes && s'.nodes[a] == s.nodes[a])
  }

  /** Each user: reported ones and those the entry hosts are at home on the id, unless purged; everyone else stays. */
  ghost predicate HomeLeft(m: Mem, s: Store, m': Mem, s': Store, req: Req, num: nat, u: string) {
    var id := IdOf(req);
    && StoredHome(s', u) ==
        (if u in req.users then Some(id)
         else if Purged(m, req, num, u) then None
         else if u in m.users && m.users[u] == num then Some(id)
         else StoredHome(s, u))
    && HomeOf(m', u) == StoredHome(s', u)
    && (StoredHome(s', u) == Some(id) ==> u in m'.users && m'.users[u] == num)
  }

  /** Each grant: the published ones are there, and of the old ones those that involve no purged user and no reported owner. */
  ghost predicate GrantLeft(m: Mem, s: Store, m': Mem, s': Store, req: Req, num: nat, g: Grant) {
    var kept := !Purged(m, req, num, g.grantee) && !Purged(m, req, num, g.owner) && g.owner !in req.users;
    && (InMem(m'.shared, g) <==> Published(req, g) || (InMem(m.shared, g) && kept))
    && (g in s'.shares <==> Published(req, g) || (g in s.shares && kept))
  }

  ghost predicate RegistrationLeft(m: Mem, s: Store, m': Mem, s': Store, req: Req, num: nat, now: int) {
    && EntryLeft(m, s, m', s', req, num, now)
    && (forall u :: HomeLeft(m, s, m', s', req, num, u))
    && (forall g :: GrantLeft(m, s, m', s', req, num, g))
  }

  lemma CommitEntry(k: Mem, s: Store, req: Req, num: nat, adoptFrom: Option<string>, now: int)
    requires MayCommit(k, req, num) && Entry(k, req, num, adoptFrom) && SameNodes(k, s)
    requires adoptFrom.Some? ==> adoptFrom.value != ResolveNodeID(req.fsId, req.address)
    ensures EntryLeft(k, s, Commit(k, req, num, now), RegisterEffect(s, k, req, num, adoptFrom), req, num, now)
  {
    hide MayCommit, CommitShared, CommitUsers, RegisterEffect, SameNodes, ResolveNodeID;
    CommitDocuments(k, s, req, num, adoptFrom);
    assert ResolveNodeID(req.fsId, req.address) == IdOf(req) by { IdIs(req); }
    var m' := Commit(k, req, num, now);
    assert Hosted(m'.users, num) == set u | u in m'.users && m'.users[u] == num;
  }

  lemma IdIs(req: Req)
    ensures ResolveNodeID(req.fsId, req.address) == IdOf(req)
  {
  }

  lemma CommitDocuments(k: Mem, s: Store, req: Req, num: nat, adoptFrom: Option<string>)
    requires MayCommit(k, req, num) && Entry(k, req, num, adoptFrom) && SameNodes(k, s)
    requires adoptFrom.Some? ==> adoptFrom.value != ResolveNodeID(req.fsId, req.address)
    ensures num in k.nodes
    ensures var id, s' := IdOf(req), RegisterEffect(s, k, req, num, adoptFrom);
      && id in s'.nodes && s'.nodes[id] == NodeRec(num, req.address)
      && (forall a :: a in s'.nodes && a != id ==> a in s.nodes && s'.nodes[a] == s.nodes[a] && s.nodes[a].num != num)
      && (forall a :: a in s.nodes && s.nodes[a].num != num ==> a in s'.nodes && s'.nodes[a] == s.nodes[a])
  {
    hide Conflict, RegisterEffect, LoadsExact, Hosted;
    forall a | a in s.nodes ensures s.nodes[a].num == num <==> a == k.nodes[num].id { }
    RegisterNodes(s, k, req, num, adoptFrom, k.nodes[num].id);
  }

  lemma CommitHome(k: Mem, s: Store, req: Req, num: nat, adoptFrom: Option<string>, now: int, u: string)
    requires MayCommit(k, req, num) && Entry(k, req, num, adoptFrom) && SameNodes(k, s) && SameHomes(k, s)
    requires adoptFrom.Some? ==> adoptFrom.value != ResolveNodeID(req.fsId, req.address)
    ensures HomeLeft(k, s, Commit(k, req, num, now), RegisterEffect(s, k, req, num, adoptFrom), req, num, u)
  {
    hide Conflict, CommitShared, CommitUsers, RegisterEffect, Incoming, SameHomes;
    assert HomeOf(k, u) == StoredHome(s, u) by { HomesAgree(k, s, u); }
    assert k.nodes[num].id in s.nodes;
    RegisterKeepsHome(s, k, req, num, now, adoptFrom, u);
    RegisterHome(s, k, req, num, adoptFrom, u);
    CommitRoutes(k, req, num, u);
  }

  lemma HomesAgree(m: Mem, s: Store, u: string)
    requires SameHomes(m, s)
    ensures HomeOf(m, u) == StoredHome(s, u)
  {
  }

  lemma CommitGrant(k: Mem, s: Store, req: Req, num: nat, adoptFrom: Option<string>, now: int, g: Grant)
    ensures GrantLeft(k, s, Commit(k, req, num, now), RegisterEffect(s, k, req, num, adoptFrom), req, num, g)
  {
    hide CommitShared, CommitUsers, RegisterEffect, Incoming, InMem, Published, Hosted;
    CommitSharedHas(k, req, num, ResolveNodeID(req.fsId, req.address), g);
    RegisterShares(s, k, req, num, adoptFrom, g);
  }

  lemma CommitLeaves(k: Mem, s: Store, req: Req, num: nat, adoptFrom: Option<string>, now: int)
    requires MayCommit(k, req, num) && Entry(k, req, num, adoptFrom) && Agree(k, s)
    requires adoptFrom.Some? ==> adoptFrom.value != ResolveNodeID(req.fsId, req.address)
    ensures RegistrationLeft(k, s, Commit(k, req, num, now), ApplyAll(s, RegisterWrites(k, req, num, adoptFrom)), req, num, now)
  {
    hide MayCommit, Entry, SameNodes, SameHomes, SharesRecorded, Commit, RegisterEffect, RegisterWrites, ApplyAll, EntryLeft, HomeLeft, GrantLeft, ResolveNodeID;
    var m', s' := Commit(k, req, num, now), RegisterEffect(s, k, req, num, adoptFrom);
    RegisterWritesEffect(s, k, req, num, adoptFrom);
    CommitEntry(k, s, req, num, adoptFrom, now);
    forall u ensures HomeLeft(k, s, m', s', req, num, u) { CommitHome(k, s, req, num, adoptFrom, now, u); }
    forall g ensures GrantLeft(k, s, m', s', req, num, g) { CommitGrant(k, s, req, num, adoptFrom, now, g); }
  }

  /** The same when the number was allocated on the way. */
  lemma FreshLeaves(m: Mem, s: Store, t: Store, req: Req, num: nat, now: int, m': Mem, s': Store)
    requires MemInv(m) && num !in m.nodes && IdOf(req) !in s.nodes && (forall a :: a in s.nodes ==> s.nodes[a].num != num)
    requires t.users == s.users && t.shares == s.shares && t.nodes == s.nodes[IdOf(req) := NodeRec(num, req.address)]
    requires RegistrationLeft(WithFresh(m, req, num, now), t, m', s', req, num, now)
    ensures RegistrationLeft(m, s, m', s', req, num, now)
  {
    hide IdsDistinct, OrphansApart, LoadsExact, IdOf, HomeOf, InMem, Published;
    var k := WithFresh(m, req, num, now);
    forall u ensures HomeLeft(m, s, m', s', req, num, u) { assert HomeLeft(k, t, m', s', req, num, u); }
    forall g ensures GrantLeft(m, s, m', s', req, num, g) { assert GrantLeft(k, t, m', s', req, num, g); }
    FreshEntry(m, s, t, req, num, now, m', s');
  }

  lemma FreshEntry(m: Mem, s: Store, t: Store, req: Req, num: nat, now: int, m': Mem, s': Store)
    requires num !in m.nodes && IdOf(req) !in s.nodes && (forall a :: a in s.nodes ==> s.nodes[a].num != num)
    requires t.nodes == s.nodes[IdOf(req) := NodeRec(num, req.address)]
    requires EntryLeft(WithFresh(m, req, num, now), t, m', s', req, num, now)
    ensures EntryLeft(m, s, m', s', req, num, now)
  {
    hide IdOf;
    var k := WithFresh(m, req, num, now);
    forall a | a in s.nodes ensures a in s'.nodes && s'.nodes[a] == s.nodes[a] { assert t.nodes[a] == s.nodes[a]; }
    forall a | a in s'.nodes && a != IdOf(req) ensures a in s.nodes && s'.nodes[a] == s.nodes[a] { assert a in t.nodes; }
  }
}
