/**
Each structural operation, followed by all of its store writes, keeps tables and store
in agreement.
*/
module MetaCommits {
  import opened Options
  import opened SharePath
  import opened MetaStore
  import opened MetaTables
  import opened MetaAgreement

  // ---------------------------------------------------------------- write lists

  lemma ApplyOne(s: Store, a: Write)
    ensures ApplyAll(s, [a]) == Apply(s, a)
  {
    hide Apply;
    assert [a][1..] == [];
  }

  lemma ApplyTwo(s: Store, a: Write, b: Write)
    ensures ApplyAll(s, [a, b]) == Apply(Apply(s, a), b)
  {
    hide Apply;
    assert [a, b][1..] == [b];
    ApplyOne(Apply(s, a), b);
  }

  lemma ApplyThree(s: Store, a: Write, b: Write, c: Write)
    ensures ApplyAll(s, [a, b, c]) == Apply(Apply(Apply(s, a), b), c)
  {
    hide Apply;
    assert [a, b, c][1..] == [b, c];
    ApplyTwo(Apply(s, a), b, c);
  }

  // ---------------------------------------------------------------- registration

  /** The state in which a registration may commit under numeric id `num`. */
  ghost predicate MayCommit(m: Mem, req: Req, num: nat) {
    var nodeId := ResolveNodeID(req.fsId, req.address);
    && num in m.nodes && nodeId != ""
    && (forall n :: n in m.nodes ==> m.nodes[n].id != "")
    && (forall a, b :: a in m.nodes && b in m.nodes && m.nodes[a].id == m.nodes[b].id ==> a == b)
    && (forall n :: n in m.nodes && n != num ==> m.nodes[n].id != nodeId)
    && (forall u :: u in m.users ==> m.users[u] in m.nodes && u !in m.orphans)
    && (forall u, n :: u in m.orphans && n in m.nodes && m.orphans[u] != nodeId ==> m.nodes[n].id != m.orphans[u])
    && (forall n :: n in m.nodes && n != num ==> m.nodes[n].load == |Hosted(m.users, n)|)
    && !Conflict(m, nodeId, Some(num), req.users)
  }

  lemma IncomingFree(m: Mem, req: Req, num: nat, u: string)
    requires MayCommit(m, req, num) && u in Incoming(req)
    ensures u in m.users ==> m.users[u] == num
    ensures u in m.orphans ==> m.orphans[u] == ResolveNodeID(req.fsId, req.address)
  {
    assert u in req.users;
  }

  /** Where each user is after the commit. */
  lemma CommitRoutesBy(m: Mem, req: Req, num: nat, u: string)
    requires MayCommit(m, req, num)
    ensures var nodeId := ResolveNodeID(req.fsId, req.address);
      var users := CommitUsers(m, req, num, nodeId);
      && (u in users <==> u in Incoming(req) + Claimed(m, nodeId) || (u in m.users && u !in Missing(m, req, num)))
      && (u in users ==> users[u] == if u in Incoming(req) + Claimed(m, nodeId) then num else m.users[u])
      && (u in m.users && m.users[u] != num ==> u in users && users[u] == m.users[u])
  {
    hide Conflict;
    if u in Incoming(req) { IncomingFree(m, req, num, u); }
  }

  lemma CommitKeepsOthers(m: Mem, req: Req, num: nat, n: nat)
    requires MayCommit(m, req, num) && n != num
    ensures Hosted(CommitUsers(m, req, num, ResolveNodeID(req.fsId, req.address)), n) == Hosted(m.users, n)
  {
    hide MayCommit, CommitUsers;
    var users := CommitUsers(m, req, num, ResolveNodeID(req.fsId, req.address));
    forall u ensures u in Hosted(users, n) <==> u in Hosted(m.users, n) { CommitRoutesBy(m, req, num, u); }
  }

  lemma CommitWellFormed(m: Mem, req: Req, num: nat, now: int)
    requires MayCommit(m, req, num)
    ensures MemInv(Commit(m, req, num, now))
  {
    hide Conflict, CommitShared, CommitUsers, ResolveNodeID, Incoming;
    var nodeId := ResolveNodeID(req.fsId, req.address);
    var c := Commit(m, req, num, now);
    forall u | u in c.users ensures c.users[u] in c.nodes && u !in c.orphans {
      CommitRoutesBy(m, req, num, u);
      if u in Incoming(req) { IncomingFree(m, req, num, u); }
    }
    forall n | n in c.nodes && n != num ensures c.nodes[n].load == |Hosted(c.users, n)| {
      CommitKeepsOthers(m, req, num, n);
    }
  }

  /** The store after the writes of a registration. */
  ghost function RegisterEffect(s: Store, m: Mem, req: Req, num: nat, adoptFrom: Option<string>): Store {
    var nodeId := ResolveNodeID(req.fsId, req.address);
    var gone := Missing(m, req, num);
    var s1 := if adoptFrom.Some? then Apply(s, Rename(adoptFrom.value, nodeId)) else s;
    var s2 := Apply(s1, Upsert(nodeId, req.address));
    var s3 := if gone != {} then Apply(Apply(s2, RemoveUsers(gone)), RemoveSharesInvolving(gone)) else s2;
    Apply(Apply(Apply(s3, Assign(Incoming(req), nodeId)), RemoveSharesByOwner(Incoming(req))),
          AddShares(set g | g in Grants(req)))
  }

  lemma RegisterWritesEffect(s: Store, m: Mem, req: Req, num: nat, adoptFrom: Option<string>)
    ensures ApplyAll(s, RegisterWrites(m, req, num, adoptFrom)) == RegisterEffect(s, m, req, num, adoptFrom)
  {
    hide Apply, Incoming, ResolveNodeID, Grants, Missing;
    var nodeId := ResolveNodeID(req.fsId, req.address);
    var gone := Missing(m, req, num);
    var a := if adoptFrom.Some? then [Rename(adoptFrom.value, nodeId)] else [];
    var b := [Upsert(nodeId, req.address)];
    var c := if gone != {} then [RemoveUsers(gone), RemoveSharesInvolving(gone)] else [];
    var d := [Assign(Incoming(req), nodeId), RemoveSharesByOwner(Incoming(req)), AddShares(set g | g in Grants(req))];
    assert RegisterWrites(m, req, num, adoptFrom) == a + b + c + d;
    ApplyAllConcat(s, a + b + c, d);
    ApplyAllConcat(s, a + b, c);
    ApplyAllConcat(s, a, b);
    var s1 := ApplyAll(s, a);
    if adoptFrom.Some? { ApplyOne(s, a[0]); }
    ApplyOne(s1, b[0]);
    var s2 := Apply(s1, b[0]);
    if gone != {} { ApplyTwo(s2, c[0], c[1]); }
    var s3 := ApplyAll(s2, c);
    ApplyThree(s3, d[0], d[1], d[2]);
  }

  /** The registering node is the one the tables hold under `num`, by its old name if it is being adopted. */
  ghost predicate Entry(m: Mem, req: Req, num: nat, adoptFrom: Option<string>) {
    num in m.nodes && m.nodes[num].id == if adoptFrom.Some? then adoptFrom.value else ResolveNodeID(req.fsId, req.address)
  }

  lemma RegisterNodes(s: Store, m: Mem, req: Req, num: nat, adoptFrom: Option<string>, entry: string)
    requires entry in s.nodes && s.nodes[entry].num == num
    requires entry == if adoptFrom.Some? then adoptFrom.value else ResolveNodeID(req.fsId, req.address)
    requires adoptFrom.Some? ==> ResolveNodeID(req.fsId, req.address) !in s.nodes
    ensures var nodeId := ResolveNodeID(req.fsId, req.address);
      RegisterEffect(s, m, req, num, adoptFrom).nodes
        == (if adoptFrom.Some? then s.nodes - {adoptFrom.value} else s.nodes)[nodeId := NodeRec(num, req.address)]
  {
    hide Incoming, Grants, Missing, ResolveNodeID;
  }

  /** Renaming and re-addressing one entry on both sides. */
  lemma Rekeyed(m: Mem, s: Store, c: Mem, t: Store, num: nat, entry: Node)
    requires SameNodes(m, s) && num in m.nodes && entry.id != ""
    requires entry.id == m.nodes[num].id || entry.id !in s.nodes
    requires c.nodes == m.nodes[num := entry]
    requires t.nodes == (s.nodes - ({m.nodes[num].id} - {entry.id}))[entry.id := NodeRec(num, entry.address)]
    ensures SameNodes(c, t)
  {
    var was := m.nodes[num].id;
    forall n | n in c.nodes ensures c.nodes[n].id in t.nodes && t.nodes[c.nodes[n].id] == NodeRec(n, c.nodes[n].address) {
      if n != num { assert s.nodes[m.nodes[n].id].num == n; }
    }
    forall a | a in t.nodes ensures t.nodes[a].num in c.nodes && c.nodes[t.nodes[a].num].id == a {
      if a != entry.id { assert a in s.nodes && m.nodes[s.nodes[a].num].id == a; }
    }
  }

  lemma RegisterKeepsNodes(s: Store, m: Mem, req: Req, num: nat, now: int, adoptFrom: Option<string>)
    requires MayCommit(m, req, num) && Entry(m, req, num, adoptFrom) && SameNodes(m, s)
    requires adoptFrom.Some? ==> adoptFrom.value != ResolveNodeID(req.fsId, req.address)
    ensures SameNodes(Commit(m, req, num, now), RegisterEffect(s, m, req, num, adoptFrom))
  {
    hide Conflict, CommitShared, CommitUsers, ResolveNodeID, RegisterEffect, Incoming;
    var c := Commit(m, req, num, now);
    RegisterNodes(s, m, req, num, adoptFrom, m.nodes[num].id);
    Rekeyed(m, s, c, RegisterEffect(s, m, req, num, adoptFrom), num, c.nodes[num]);
  }

  lemma RegisterHomeBy(s: Store, m: Mem, req: Req, num: nat, adoptFrom: Option<string>, u: string)
    requires adoptFrom.Some? ==> adoptFrom.value in s.nodes && adoptFrom.value != ResolveNodeID(req.fsId, req.address)
    ensures var nodeId := ResolveNodeID(req.fsId, req.address);
      StoredHome(RegisterEffect(s, m, req, num, adoptFrom), u)
        == if u in Incoming(req) then Some(nodeId)
           else if u in Missing(m, req, num) then None
           else if adoptFrom.Some? && StoredHome(s, u) == Some(adoptFrom.value) then Some(nodeId)
           else StoredHome(s, u)
  {
    hide Incoming, Grants, ResolveNodeID, Missing;
  }

  lemma RegisterKeepsHomes(s: Store, m: Mem, req: Req, num: nat, now: int, adoptFrom: Option<string>)
    requires MayCommit(m, req, num) && Entry(m, req, num, adoptFrom) && SameNodes(m, s) && SameHomes(m, s)
    requires adoptFrom.Some? ==> adoptFrom.value != ResolveNodeID(req.fsId, req.address)
    ensures SameHomes(Commit(m, req, num, now), RegisterEffect(s, m, req, num, adoptFrom))
  {
    forall u ensures HomeOf(Commit(m, req, num, now), u) == StoredHome(RegisterEffect(s, m, req, num, adoptFrom), u) {
      RegisterKeepsHome(s, m, req, num, now, adoptFrom, u);
    }
  }

  lemma RegisterKeepsHome(s: Store, m: Mem, req: Req, num: nat, now: int, adoptFrom: Option<string>, u: string)
    requires MayCommit(m, req, num) && Entry(m, req, num, adoptFrom) && SameNodes(m, s) && HomeOf(m, u) == StoredHome(s, u)
    requires adoptFrom.Some? ==> adoptFrom.value != ResolveNodeID(req.fsId, req.address)
    ensures HomeOf(Commit(m, req, num, now), u) == StoredHome(RegisterEffect(s, m, req, num, adoptFrom), u)
  {
    hide Conflict, CommitShared, CommitUsers, ResolveNodeID, RegisterEffect, Incoming;
    assert m.nodes[num].id in s.nodes;
    RegisterHomeBy(s, m, req, num, adoptFrom, u);
    CommitRoutesBy(m, req, num, u);
    if u in Incoming(req) { IncomingFree(m, req, num, u); }
  }

  // ---------------------------------------------------------------- registration: shares

  lemma {:induction false} DirGrantsNormal(d: SharedDir, users: seq<string>, g: Grant)
    requires g in DirGrants(d, users)
    ensures g.owner == d.owner && g.path == Normalize(d.path) && g.grantee in users && g.grantee != d.owner
  {
    if g in DirGrants(d, users[1..]) { DirGrantsNormal(d, users[1..], g); }
  }

  /** Every grant a registration publishes is for an owner it reports, and in normal form. */
  lemma {:induction false} GrantsNormal(dirs: seq<SharedDir>, owners: set<string>, g: Grant)
    requires g in GrantsFrom(dirs, owners)
    ensures g.owner in owners && g.grantee != g.owner && Canonical(g) == g
  {
    if g in GrantsFrom(dirs[1..], owners) {
      GrantsNormal(dirs[1..], owners, g);
    } else {
      DirGrantsNormal(dirs[0], dirs[0].users, g);
      NormalizeIdempotent(dirs[0].path);
    }
  }

  lemma GrantIsNormal(req: Req, g: Grant)
    requires g in Grants(req)
    ensures g.owner in Incoming(req) && g.grantee != g.owner && Canonical(g) == g
  {
    GrantsNormal(req.dirs, Incoming(req), g);
  }

  /** Which grants are visible after a registration. */
  lemma CommitSharedBy(m: Mem, req: Req, num: nat, nodeId: string, g: Grant)
    ensures var gone := Missing(m, req, num);
      InMem(CommitShared(m, req, num, nodeId), g)
      <==>
        g in Grants(req)
        || (InMem(m.shared, g) && g.grantee !in gone && g.owner !in gone && g.owner !in Incoming(req))
  {
    hide Grants, Incoming, Missing, AddGrants, DropOwners, WithLists, Claimed;
    var gone := Missing(m, req, num);
    var a := m.shared - gone;
    var b := DropOwners(a, gone);
    var c := WithLists(b, Claimed(m, nodeId) + Incoming(req));
    var d := DropOwners(c, Incoming(req));
    DropOwnersHas(a, gone, g);
    WithListsHas(b, Claimed(m, nodeId) + Incoming(req), g);
    DropOwnersHas(c, Incoming(req), g);
    AddGrantsHas(d, Grants(req), g);
  }

  /** Which grants are recorded after a registration. */
  lemma RegisterSharesBy(s: Store, m: Mem, req: Req, num: nat, adoptFrom: Option<string>, g: Grant)
    ensures var gone := Missing(m, req, num);
      g in RegisterEffect(s, m, req, num, adoptFrom).shares
      <==>
        g in Grants(req)
        || (g in s.shares && g.grantee !in gone && g.owner !in gone && g.owner !in Incoming(req))
  {
    hide Grants, Incoming, Missing, ResolveNodeID;
    forall h | h in Grants(req) ensures Canonical(h) == h { GrantIsNormal(req, h); }
  }

  lemma RegisterKeepsShares(s: Store, m: Mem, req: Req, num: nat, now: int, adoptFrom: Option<string>)
    requires SharesRecorded(m.shared, s)
    ensures SharesRecorded(Commit(m, req, num, now).shared, RegisterEffect(s, m, req, num, adoptFrom))
  {
    hide Grants, Incoming, Missing, ResolveNodeID, CommitShared, RegisterEffect, InMem;
    var nodeId := ResolveNodeID(req.fsId, req.address);
    forall g | InMem(CommitShared(m, req, num, nodeId), g) ensures g in RegisterEffect(s, m, req, num, adoptFrom).shares {
      CommitSharedBy(m, req, num, nodeId, g);
      RegisterSharesBy(s, m, req, num, adoptFrom, g);
    }
  }

  // ---------------------------------------------------------------- registration, told by the request

  /** The registration lists a directory of an owner it reports for somebody else. */
  ghost predicate Published(req: Req, g: Grant) {
    exists d, u :: d in req.dirs && u in d.users && d.owner in req.users && u != d.owner && g == Grant(u, d.owner, Normalize(d.path))
  }

  /** Purging is on, and the node hosts the user and does not report them. */
  predicate Purged(m: Mem, req: Req, num: nat, u: string) {
    m.allowPurge && u in m.users && m.users[u] == num && u !in req.users
  }

  lemma {:induction false} DirGrantsAre(d: SharedDir, users: seq<string>, g: Grant)
    ensures g in DirGrants(d, users) <==> exists u :: u in users && u != d.owner && g == Grant(u, d.owner, Normalize(d.path))
  {
    hide Normalize;
    if users == [] {
    } else {
      DirGrantsAre(d, users[1..], g);
      assert forall u :: u in users <==> u == users[0] || u in users[1..];
    }
  }

  lemma {:induction false} GrantsFromAre(dirs: seq<SharedDir>, owners: set<string>, g: Grant)
    ensures g in GrantsFrom(dirs, owners) <==>
      exists d, u :: d in dirs && u in d.users && d.owner in owners && u != d.owner && g == Grant(u, d.owner, Normalize(d.path))
  {
    hide Normalize, DirGrants;
    if dirs == [] {
    } else {
      DirGrantsAre(dirs[0], dirs[0].users, g);
      GrantsFromAre(dirs[1..], owners, g);
      assert forall d :: d in dirs <==> d == dirs[0] || d in dirs[1..];
    }
  }

  /** The published grants are exactly those. */
  lemma GrantsAre(req: Req, g: Grant)
    ensures g in Grants(req) <==> Published(req, g)
  {
    hide Normalize, GrantsFrom;
    GrantsFromAre(req.dirs, Incoming(req), g);
  }

  /** Where each user is after the commit: reported and waiting users here, own users unless purged, everyone else as before. */
  lemma CommitRoutes(m: Mem, req: Req, num: nat, u: string)
    requires MayCommit(m, req, num)
    ensures var nodeId := ResolveNodeID(req.fsId, req.address);
      var users := CommitUsers(m, req, num, nodeId);
      var here := u in req.users || (u in m.orphans && m.orphans[u] == nodeId);
      && (u in users <==> here || (u in m.users && !Purged(m, req, num, u)))
      && (u in users ==> users[u] == if here then num else m.users[u])
  {
    hide MayCommit, CommitUsers, ResolveNodeID;
    CommitRoutesBy(m, req, num, u);
  }

  /** The stored home of each user after the writes. */
  lemma RegisterHome(s: Store, m: Mem, req: Req, num: nat, adoptFrom: Option<string>, u: string)
    requires adoptFrom.Some? ==> adoptFrom.value in s.nodes && adoptFrom.value != ResolveNodeID(req.fsId, req.address)
    ensures StoredHome(RegisterEffect(s, m, req, num, adoptFrom), u)
        == if u in req.users then Some(ResolveNodeID(req.fsId, req.address))
           else if Purged(m, req, num, u) then None
           else if adoptFrom.Some? && StoredHome(s, u) == Some(adoptFrom.value) then Some(ResolveNodeID(req.fsId, req.address))
           else StoredHome(s, u)
  {
    hide RegisterEffect, ResolveNodeID, StoredHome;
    RegisterHomeBy(s, m, req, num, adoptFrom, u);
  }

  /** Which grants are visible after a registration: the published ones, and the old ones that involve no
      purged user and no reported owner. */
  lemma CommitSharedHas(m: Mem, req: Req, num: nat, nodeId: string, g: Grant)
    ensures InMem(CommitShared(m, req, num, nodeId), g)
      <==>
        Published(req, g)
        || (InMem(m.shared, g) && !Purged(m, req, num, g.grantee) && !Purged(m, req, num, g.owner) && g.owner !in req.users)
  {
    hide CommitShared, Grants, InMem, Published;
    CommitSharedBy(m, req, num, nodeId, g);
    GrantsAre(req, g);
  }

  /** Which grants are recorded after its writes, by the same rule. */
  lemma RegisterShares(s: Store, m: Mem, req: Req, num: nat, adoptFrom: Option<string>, g: Grant)
    ensures g in RegisterEffect(s, m, req, num, adoptFrom).shares
      <==>
        Published(req, g)
        || (g in s.shares && !Purged(m, req, num, g.grantee) && !Purged(m, req, num, g.owner) && g.owner !in req.users)
  {
    hide RegisterEffect, Grants, Published;
    RegisterSharesBy(s, m, req, num, adoptFrom, g);
    GrantsAre(req, g);
  }

  /** A registration and all of its writes keep agreement. */
  lemma RegisterAgrees(s: Store, m: Mem, req: Req, num: nat, now: int, adoptFrom: Option<string>)
    requires MayCommit(m, req, num) && Entry(m, req, num, adoptFrom) && Agree(m, s)
    requires adoptFrom.Some? ==> adoptFrom.value != ResolveNodeID(req.fsId, req.address)
    ensures MemInv(Commit(m, req, num, now))
    ensures Agree(Commit(m, req, num, now), ApplyAll(s, RegisterWrites(m, req, num, adoptFrom)))
  {
    hide Commit, RegisterWrites, RegisterEffect, MayCommit, Entry, SameNodes, SameHomes, SharesRecorded, MemInv;
    RegisterWritesEffect(s, m, req, num, adoptFrom);
    CommitWellFormed(m, req, num, now);
    RegisterKeepsNodes(s, m, req, num, now, adoptFrom);
    RegisterKeepsHomes(s, m, req, num, now, adoptFrom);
    RegisterKeepsShares(s, m, req, num, now, adoptFrom);
  }

  // ---------------------------------------------------------------- first login

  lemma LoginWellFormed(m: Mem, user: string, n: nat)
    requires MemInv(m) && n in m.nodes && user !in m.users && user !in m.orphans
    ensures MemInv(Login(m, user, n))
  {
    hide LoadsExact;
    LoginLoads(m, user, n);
  }

  lemma LoginKeepsShares(s: Store, m: Mem, user: string, n: nat)
    requires SameNodes(m, s) && SharesRecorded(m.shared, s) && n in m.nodes
    ensures SameNodes(Login(m, user, n), Apply(s, Assign({user}, m.nodes[n].id)))
    ensures SharesRecorded(Login(m, user, n).shared, Apply(s, Assign({user}, m.nodes[n].id)))
  {
    var k, t := Login(m, user, n), Apply(s, Assign({user}, m.nodes[n].id));
    forall g | InMem(k.shared, g) ensures g in t.shares { assert InMem(m.shared, g); }
  }

  lemma LoginAgrees(s: Store, m: Mem, user: string, n: nat)
    requires MemInv(m) && Agree(m, s) && n in m.nodes && user !in m.users && user !in m.orphans
    ensures MemInv(Login(m, user, n))
    ensures Agree(Login(m, user, n), Apply(s, Assign({user}, m.nodes[n].id)))
  {
    hide MemInv, SameNodes, SameHomes, SharesRecorded, Login, Apply;
    LoginWellFormed(m, user, n);
    LoginHomes(s, m, user, n);
    LoginKeepsShares(s, m, user, n);
  }

  lemma LoginHomes(s: Store, m: Mem, user: string, n: nat)
    requires SameHomes(m, s) && n in m.nodes
    ensures SameHomes(Login(m, user, n), Apply(s, Assign({user}, m.nodes[n].id)))
  {
    var k, t := Login(m, user, n), Apply(s, Assign({user}, m.nodes[n].id));
    forall u ensures HomeOf(k, u) == StoredHome(t, u) { assert HomeOf(m, u) == StoredHome(s, u); }
  }

  lemma LoginLoads(m: Mem, user: string, n: nat)
    requires LoadsExact(m) && n in m.nodes && user !in m.users
    ensures LoadsExact(Login(m, user, n))
  {
    var k := Login(m, user, n);
    assert Hosted(k.users, n) == Hosted(m.users, n) + {user};
    forall a | a in k.nodes && a != n ensures k.nodes[a].load == |Hosted(k.users, a)| {
      assert Hosted(k.users, a) == Hosted(m.users, a);
    }
  }

  /** A login whose write failed is rolled back to the tables it started from, share lists of other users included. */
  lemma LoginUndoRestores(m: Mem, user: string, n: nat)
    requires n in m.nodes && user !in m.users
    ensures LoginUndo(Login(m, user, n), user, n) == m.(shared := m.shared - {user})
  {
  }

  // ---------------------------------------------------------------- shares

  function Share(m: Mem, g: Grant): Mem {
    m.(shared := AddGrant(m.shared, g))
  }

  function Unshare(m: Mem, g: Grant): Mem {
    var have := if g.grantee in m.shared then m.shared[g.grantee] else [];
    m.(shared := m.shared[g.grantee := WithoutEntry(have, Visible(g.owner, g.path))])
  }

  lemma UnshareHas(m: Mem, g: Grant, h: Grant)
    ensures InMem(Unshare(m, g).shared, h) <==> InMem(m.shared, h) && h != g
  {
    var have := if g.grantee in m.shared then m.shared[g.grantee] else [];
    WithoutEntryHas(have, Visible(g.owner, g.path), Visible(h.owner, h.path));
  }

  lemma ShareAgrees(s: Store, m: Mem, g: Grant)
    requires MemInv(m) && Agree(m, s) && Canonical(g) == g
    ensures MemInv(Share(m, g)) && Agree(Share(m, g), Apply(s, AddShares({g})))
  {
    hide SameNodes, MemInv;
    var k, t := Share(m, g), Apply(s, AddShares({g}));
    OnlyShares(m, k, s, t);
    forall h | InMem(k.shared, h) ensures h in t.shares {
      assert InMem(m.shared, h) || h == g;
      assert Canonical(g) in t.shares;
    }
  }

  lemma UnshareAgrees(s: Store, m: Mem, g: Grant)
    requires MemInv(m) && Agree(m, s) && Canonical(g) == g
    ensures MemInv(Unshare(m, g)) && Agree(Unshare(m, g), Apply(s, RemoveShare(g)))
  {
    hide SameNodes, MemInv;
    var k, t := Unshare(m, g), Apply(s, RemoveShare(g));
    OnlyShares(m, k, s, t);
    forall h | InMem(k.shared, h) ensures h in t.shares { UnshareHas(m, g, h); }
  }

  lemma OnlyShares(m: Mem, k: Mem, s: Store, t: Store)
    requires MemInv(m) && SameNodes(m, s) && SameHomes(m, s)
    requires k == m.(shared := k.shared) && t == s.(shares := t.shares)
    ensures MemInv(k) && SameNodes(k, t) && SameHomes(k, t)
  {
    assert SameNodes(k, t) by { hide MemInv, SameHomes; }
    assert MemInv(k) by { hide SameNodes, SameHomes; }
    assert SameHomes(k, t) by {
      hide SameNodes, MemInv;
      forall u ensures HomeOf(k, u) == StoredHome(t, u) { assert HomeOf(m, u) == StoredHome(s, u); }
    }
  }

  // ---------------------------------------------------------------- deregistration

  lemma DeregisterKeepsOthers(m: Mem, num: Option<nat>, nodeId: string)
    requires UsersRouted(m) && LoadsExact(m)
    ensures LoadsExact(Deregister(m, num, nodeId))
  {
    hide DropOwners;
    var k := Deregister(m, num, nodeId);
    forall a | a in k.nodes ensures k.nodes[a].load == |Hosted(k.users, a)| {
      assert Hosted(k.users, a) == Hosted(m.users, a);
    }
  }

  lemma DeregisterLoads(m: Mem, num: Option<nat>, nodeId: string)
    requires MemInv(m) && (num.Some? ==> num.value in m.nodes && m.nodes[num.value].id == nodeId)
    ensures MemInv(Deregister(m, num, nodeId))
  {
    hide DropOwners, LoadsExact;
    DeregisterKeepsOthers(m, num, nodeId);
  }

  /** The store after the writes of a deregistration. */
  ghost function DeregisterEffect(s: Store, m: Mem, num: Option<nat>, nodeId: string): Store {
    var gone := Released(m, num, nodeId);
    s.(users := s.users - gone,
       shares := (set g | g in s.shares && g.grantee !in gone && g.owner !in gone),
       nodes := if num.Some? then s.nodes - {nodeId} else s.nodes)
  }

  lemma DeregisterWritesEffect(s: Store, m: Mem, num: Option<nat>, nodeId: string)
    ensures ApplyAll(s, DeregisterWrites(m, num, nodeId)) == DeregisterEffect(s, m, num, nodeId)
  {
    hide Released;
    var gone := Released(m, num, nodeId);
    var a := if gone != {} then [RemoveUsers(gone), RemoveSharesInvolving(gone)] else [];
    var b := if num.Some? then [RemoveNode(nodeId)] else [];
    ApplyAllConcat(s, a, b);
    if gone != {} { ApplyTwo(s, a[0], a[1]); }
    if num.Some? { ApplyOne(ApplyAll(s, a), b[0]); }
    assert gone == {} ==> s.users - gone == s.users && (set g | g in s.shares && g.grantee !in gone && g.owner !in gone) == s.shares;
  }

  lemma DeregisterHomes(s: Store, m: Mem, num: Option<nat>, nodeId: string)
    requires MemInv(m) && SameHomes(m, s) && (num.Some? ==> num.value in m.nodes && m.nodes[num.value].id == nodeId)
    ensures SameHomes(Deregister(m, num, nodeId), DeregisterEffect(s, m, num, nodeId))
  {
    hide DropOwners, LoadsExact, OrphansApart;
    var k, t := Deregister(m, num, nodeId), DeregisterEffect(s, m, num, nodeId);
    forall u ensures HomeOf(k, u) == StoredHome(t, u) { assert HomeOf(m, u) == StoredHome(s, u); }
  }

  lemma DeregisterNodes(s: Store, m: Mem, num: Option<nat>, nodeId: string)
    requires MemInv(m) && SameNodes(m, s) && (num.Some? ==> num.value in m.nodes && m.nodes[num.value].id == nodeId)
    ensures SameNodes(Deregister(m, num, nodeId), DeregisterEffect(s, m, num, nodeId))
  {
    hide DropOwners, LoadsExact, OrphansApart, UsersRouted, Released;
  }

  lemma DeregisterAgrees(s: Store, m: Mem, num: Option<nat>, nodeId: string)
    requires MemInv(m) && Agree(m, s) && (num.Some? ==> num.value in m.nodes && m.nodes[num.value].id == nodeId)
    ensures MemInv(Deregister(m, num, nodeId))
    ensures Agree(Deregister(m, num, nodeId), ApplyAll(s, DeregisterWrites(m, num, nodeId)))
  {
    hide DropOwners, InMem, DeregisterWrites, SameNodes, SameHomes, MemInv;
    var k, t := Deregister(m, num, nodeId), DeregisterEffect(s, m, num, nodeId);
    DeregisterLoads(m, num, nodeId);
    DeregisterWritesEffect(s, m, num, nodeId);
    DeregisterHomes(s, m, num, nodeId);
    DeregisterNodes(s, m, num, nodeId);
    forall g | InMem(k.shared, g) ensures g in t.shares { DeregisterShare(m, num, nodeId, g); }
  }

  lemma DeregisterShare(m: Mem, num: Option<nat>, nodeId: string, g: Grant)
    ensures InMem(Deregister(m, num, nodeId).shared, g)
      <==> InMem(m.shared, g) && g.grantee !in Released(m, num, nodeId) && g.owner !in Released(m, num, nodeId)
  {
    hide Released, DropOwners;
    var gone := Released(m, num, nodeId);
    DropOwnersHas(m.shared - gone, gone, g);
  }

  /** Rolling a deregistration back puts the released rows back beside whatever the tables hold now. */
  function DeregisterUndo(k: Mem, num: Option<nat>, node: Node, users: map<string, nat>, orphans: map<string, string>,
                          shared: map<string, seq<Visible>>): Mem {
    k.(nodes := if num.Some? then k.nodes[num.value := node] else k.nodes,
       users := k.users + users,
       orphans := k.orphans + orphans,
       shared := shared)
  }

  function Restricted<V>(t: map<string, V>, keys: set<string>): map<string, V> {
    map u | u in t && u in keys :: t[u]
  }

  /** It restores the tables as they were, and with them every node's load. */
  lemma DeregisterUndoRestores(m: Mem, num: Option<nat>, nodeId: string, node: Node)
    requires num.Some? ==> num.value in m.nodes && node == m.nodes[num.value]
    ensures var gone := Released(m, num, nodeId);
      DeregisterUndo(Deregister(m, num, nodeId), num, node, Restricted(m.users, gone), Restricted(m.orphans, gone), m.shared) == m
  {
    hide Released, DropOwners;
    var gone := Released(m, num, nodeId);
    var k := DeregisterUndo(Deregister(m, num, nodeId), num, node, Restricted(m.users, gone), Restricted(m.orphans, gone), m.shared);
    assert k.users == m.users;
    assert k.orphans == m.orphans;
    assert k.nodes == m.nodes;
  }
}
