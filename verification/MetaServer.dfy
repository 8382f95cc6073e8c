/**
The metaserver's critical sections: each handler's work on the in-memory maps, done
step by step as the server does it, and proved to be the step of the protocol.
*/
module MetaServerImpl {
  import opened Options
  import opened SharePath
  import opened MetaStore
  import opened MetaTables
  import opened MetaAgreement
  import opened MetaCommits
  import opened MetaProtocol
  import opened Liveness
  import opened MetaAnswers
  import MetaBoot

  // ---------------------------------------------------------------- one owner, one grant at a time

  lemma {:induction false} WithoutOwnersTwice(entries: seq<Visible>, a: set<string>, b: set<string>)
    ensures WithoutOwners(WithoutOwners(entries, a), b) == WithoutOwners(entries, a + b)
  {
    if entries == [] {
    } else {
      WithoutOwnersTwice(entries[1..], a, b);
    }
  }

  lemma {:induction false} WithoutNoOwners(entries: seq<Visible>)
    ensures WithoutOwners(entries, {}) == entries
  {
    if entries == [] {
    } else {
      WithoutNoOwners(entries[1..]);
    }
  }

  lemma DropNoOwners(shared: map<string, seq<Visible>>)
    ensures DropOwners(shared, {}) == shared
  {
    forall g | g in shared ensures WithoutOwners(shared[g], {}) == shared[g] { WithoutNoOwners(shared[g]); }
  }

  /** A user goes: their list, and every entry they published. */
  function Cut(shared: map<string, seq<Visible>>, gone: set<string>): map<string, seq<Visible>> {
    DropOwners(shared - gone, gone)
  }

  lemma CutOneMore(shared: map<string, seq<Visible>>, gone: set<string>, u: string)
    ensures DropOwners(Cut(shared, gone) - {u}, {u}) == Cut(shared, gone + {u})
  {
    hide WithoutOwners;
    forall g | g in shared ensures WithoutOwners(WithoutOwners(shared[g], gone), {u}) == WithoutOwners(shared[g], gone + {u}) {
      WithoutOwnersTwice(shared[g], gone, {u});
    }
  }

  /** Giving each of `done` a list and dropping what they published, one user more. */
  lemma ListOneMore(shared: map<string, seq<Visible>>, claimed: set<string>, done: set<string>, u: string)
    ensures DropOwners(WithLists(DropOwners(WithLists(shared, claimed + done), done), {u}), {u})
      == DropOwners(WithLists(shared, claimed + (done + {u})), done + {u})
  {
    hide WithoutOwners;
    forall g | g in shared ensures WithoutOwners(WithoutOwners(shared[g], done), {u}) == WithoutOwners(shared[g], done + {u}) {
      WithoutOwnersTwice(shared[g], done, {u});
    }
    NoEntries(done);
    NoEntries({u});
    NoEntries(done + {u});
  }

  lemma NoEntries(owners: set<string>)
    ensures WithoutOwners([], owners) == []
  {
  }

  lemma {:induction false} AddGrantsOneMore(shared: map<string, seq<Visible>>, gs: seq<Grant>, g: Grant)
    ensures AddGrants(shared, gs + [g]) == AddGrant(AddGrants(shared, gs), g)
    decreases |gs|
  {
    if gs == [] {
      assert [g][1..] == [];
      assert gs + [g] == [g];
    } else {
      assert (gs + [g])[1..] == gs[1..] + [g];
      AddGrantsOneMore(AddGrant(shared, gs[0]), gs[1..], g);
    }
  }

  lemma {:induction false} DirGrantsOneMore(d: SharedDir, before: seq<string>, u: string)
    ensures DirGrants(d, before + [u]) == DirGrants(d, before) + (if u == d.owner then [] else [Grant(u, d.owner, Normalize(d.path))])
  {
    if before == [] {
      assert before + [u] == [u];
    } else {
      assert (before + [u])[1..] == before[1..] + [u];
      DirGrantsOneMore(d, before[1..], u);
    }
  }

  lemma {:induction false} GrantsOneMore(dirs: seq<SharedDir>, d: SharedDir, owners: set<string>)
    ensures GrantsFrom(dirs + [d], owners) == GrantsFrom(dirs, owners) + (if d.owner in owners then DirGrants(d, d.users) else [])
  {
    hide DirGrants;
    if dirs == [] {
      assert dirs + [d] == [d];
    } else {
      assert (dirs + [d])[1..] == dirs[1..] + [d];
      GrantsOneMore(dirs[1..], d, owners);
    }
  }

  lemma HostedOneMore(users: map<string, nat>, done: set<string>, u: string, n: nat)
    requires u in users && u !in done
    ensures (set v | v in done + {u} && v in users && users[v] == n) == (set v | v in done && v in users && users[v] == n) + (if users[u] == n then {u} else {})
  {
  }

  /** The ids of those of `among` whose status a sweep changes. */
  ghost function NewlyStale(m: Mem, among: set<nat>, now: int): set<string> {
    set n | n in among && n in m.nodes && SweptNode(m, m.nodes[n], now) != m.nodes[n] :: m.nodes[n].id
  }

  /** The node table with only `done` swept so far. */
  ghost function SweptSome(m: Mem, done: set<nat>, now: int): map<nat, Node> {
    map n | n in m.nodes :: if n in done then SweptNode(m, m.nodes[n], now) else m.nodes[n]
  }

  lemma SweptEnds(m: Mem, now: int)
    ensures NewlyStale(m, {}, now) == {} && SweptSome(m, {}, now) == m.nodes
    ensures Swept(m, now) == m.(nodes := SweptSome(m, m.nodes.Keys, now))
  {
    hide IsHealthy;
  }

  lemma SweptOneMore(m: Mem, done: set<nat>, n: nat, now: int)
    requires n in m.nodes && n !in done
    ensures n in SweptSome(m, done, now) && SweptSome(m, done, now)[n] == m.nodes[n]
    ensures var same := IsHealthy(m, m.nodes[n], now) || m.nodes[n].status == Stale;
      && NewlyStale(m, done + {n}, now) == NewlyStale(m, done, now) + (if same then {} else {m.nodes[n].id})
      && SweptSome(m, done + {n}, now) == if same then SweptSome(m, done, now) else SweptSome(m, done, now)[n := m.nodes[n].(status := Stale)]
  {
    hide IsHealthy;
  }

  lemma SameHealthJudge(m: Mem, nodes: map<nat, Node>, n: Node, now: int)
    ensures IsHealthy(m.(nodes := nodes), n, now) == IsHealthy(m, n, now)
  {
  }

  class MetaServer {
    var fileservers: map<nat, Node>
    var users: map<string, nat>
    var orphanedUsers: map<string, string>
    var shared: map<string, seq<Visible>>
    var allowUserPurge: bool
    var heartbeatTimeout: int

    ghost function Model(): Mem
      reads this
    {
      Mem(fileservers, users, orphanedUsers, shared, allowUserPurge, heartbeatTimeout)
    }

    // ---------------------------------------------------------------- scans

    method FindByNodeID(id: string) returns (r: Option<nat>)
      requires IdsDistinct(Model())
      ensures r == FindNode(Model(), id)
    {
      if id == "" { return None; }
      var todo := fileservers.Keys;
      while todo != {}
        invariant todo <= fileservers.Keys
        invariant forall n :: n in fileservers && fileservers[n].id == id ==> n in todo
        decreases |todo|
      {
        var n :| n in todo;
        if fileservers[n].id == id {
          FindUnique(Model(), id, n);
          return Some(n);
        }
        todo := todo - {n};
      }
      r := None;
    }

    method FindByAddress(address: string) returns (r: Option<nat>)
      ensures FoundAt(Model(), address, r)
    {
      if address == "" { return None; }
      var todo := fileservers.Keys;
      while todo != {}
        invariant todo <= fileservers.Keys
        invariant forall n :: n in fileservers && fileservers[n].address == address ==> n in todo
        decreases |todo|
      {
        var n :| n in todo;
        if fileservers[n].address == address { return Some(n); }
        todo := todo - {n};
      }
      r := None;
    }

    method CountUsers(n: nat) returns (count: nat)
      ensures count == |Hosted(users, n)|
    {
      count := 0;
      var todo := users.Keys;
      ghost var done: set<string> := {};
      while todo != {}
        invariant todo !! done && todo + done == users.Keys
        invariant count == |set v | v in done && v in users && users[v] == n|
        decreases |todo|
      {
        var u :| u in todo;
        HostedOneMore(users, done, u, n);
        if users[u] == n { count := count + 1; }
        todo, done := todo - {u}, done + {u};
      }
      assert Hosted(users, n) == set v | v in done && v in users && users[v] == n;
    }

    /** A healthy node with the fewest users, or none if no node is healthy. */
    method GetLeastLoaded(now: int) returns (r: Option<nat>)
      ensures Placement(Model(), now, r)
    {
      hide Hosted;
      r := None;
      var todo := fileservers.Keys;
      while todo != {}
        invariant todo <= fileservers.Keys
        invariant r.Some? ==> r.value in fileservers && r.value !in todo && IsHealthy(Model(), fileservers[r.value], now)
        invariant r.Some? ==> forall k :: k in fileservers && k !in todo && IsHealthy(Model(), fileservers[k], now) ==> fileservers[r.value].load <= fileservers[k].load
        invariant r.None? ==> forall k :: k in fileservers && k !in todo ==> !IsHealthy(Model(), fileservers[k], now)
        decreases |todo|
      {
        var n :| n in todo;
        if IsHealthy(Mem(fileservers, users, orphanedUsers, shared, allowUserPurge, heartbeatTimeout), fileservers[n], now) {
          if r.None? || fileservers[n].load < fileservers[r.value].load { r := Some(n); }
        }
        todo := todo - {n};
      }
    }

    /** Marks silent nodes stale and reports whose status changed. */
    method MarkStale(now: int) returns (transitioned: set<string>)
      modifies `fileservers
      ensures Model() == Swept(old(Model()), now)
      ensures transitioned == NewlyStale(old(Model()), old(fileservers).Keys, now)
    {
      hide IsHealthy, NewlyStale, SweptSome, Swept, SweptNode;
      transitioned := {};
      ghost var m := Model();
      ghost var done: set<nat> := {};
      SweptEnds(m, now);
      var todo := fileservers.Keys;
      while todo != {}
        invariant todo <= m.nodes.Keys && done == m.nodes.Keys - todo
        invariant fileservers == SweptSome(m, done, now)
        invariant transitioned == NewlyStale(m, done, now)
        decreases |todo|
      {
        var n :| n in todo;
        SweptOneMore(m, done, n, now);
        SameHealthJudge(m, fileservers, fileservers[n], now);
        if !IsHealthy(Mem(fileservers, users, orphanedUsers, shared, allowUserPurge, heartbeatTimeout), fileservers[n], now) {
          if fileservers[n].status != Stale {
            transitioned := transitioned + {fileservers[n].id};
            fileservers := fileservers[n := fileservers[n].(status := Stale)];
          }
        }
        assert m.nodes.Keys - (todo - {n}) == done + {n};
        todo, done := todo - {n}, done + {n};
      }
      assert done == m.nodes.Keys;
    }

    method RegistrationConflict(nodeId: string, num: Option<nat>, names: seq<string>) returns (r: bool)
      ensures r == Conflict(Model(), nodeId, num, names)
    {
      for i := 0 to |names|
        invariant forall k :: 0 <= k < i ==>
          !(names[k] in users && (num.None? || users[names[k]] != num.value)) && !(names[k] in orphanedUsers && orphanedUsers[names[k]] != nodeId)
      {
        if names[i] in users && (num.None? || users[names[i]] != num.value) { return true; }
        if names[i] in orphanedUsers && orphanedUsers[names[i]] != nodeId { return true; }
      }
      r := false;
    }

    // ---------------------------------------------------------------- shares

    method RemoveSharesByOwner(owner: string)
      modifies `shared
      ensures shared == DropOwners(old(shared), {owner})
    {
      var todo := shared.Keys;
      while todo != {}
        invariant todo <= shared.Keys == old(shared).Keys
        invariant forall g :: g in shared ==> shared[g] == if g in todo then old(shared)[g] else WithoutOwners(old(shared)[g], {owner})
        decreases |todo|
      {
        var g :| g in todo;
        var kept := FilterOwner(shared[g], owner);
        shared := shared[g := kept];
        todo := todo - {g};
      }
    }

    static method FilterOwner(entries: seq<Visible>, owner: string) returns (out: seq<Visible>)
      ensures out == WithoutOwners(entries, {owner})
    {
      out := [];
      for i := 0 to |entries|
        invariant out + WithoutOwners(entries[i..], {owner}) == WithoutOwners(entries, {owner})
      {
        assert entries[i..][1..] == entries[i + 1..];
        if entries[i].owner != owner { out := out + [entries[i]]; }
      }
    }

    static method RemoveShareEntry(entries: seq<Visible>, owner: string, path: string) returns (out: seq<Visible>)
      ensures out == WithoutEntry(entries, Visible(owner, path))
    {
      out := [];
      for i := 0 to |entries|
        invariant out + WithoutEntry(entries[i..], Visible(owner, path)) == WithoutEntry(entries, Visible(owner, path))
      {
        assert entries[i..][1..] == entries[i + 1..];
        if !(entries[i].owner == owner && entries[i].path == path) { out := out + [entries[i]]; }
      }
    }

    // ---------------------------------------------------------------- registration

    /** The first critical section: identity, liveness of the holder, and conflicts. */
    method BeginRegister(req: Req, now: int) returns (r: Start, pick: Option<nat>)
      requires IdsDistinct(Model())
      ensures FoundAt(Model(), req.address, pick) && r == Begin(Model(), req, now, pick)
    {
      hide IdsDistinct, IsHealthy, Conflict, IsLegacy;
      pick := FindByAddress(req.address);
      if req.address == "" { return Refuse(EmptyAddress), pick; }
      var nodeId := ResolveNodeID(req.fsId, req.address);
      var num := FindByNodeID(nodeId);
      var adoptFrom := None;
      if num.None? && req.fsId != "" && pick.Some? && IsLegacy(fileservers[pick.value].id) {
        num, adoptFrom := pick, Some(fileservers[pick.value].id);
      }
      if num.Some? && adoptFrom.None? {
        var info := fileservers[num.value];
        if info.address != req.address
          && IsHealthy(Mem(fileservers, users, orphanedUsers, shared, allowUserPurge, heartbeatTimeout), info, now) {
          return Refuse(IdInUse), pick;
        }
      }
      var conflict := RegistrationConflict(nodeId, num, req.users);
      if conflict { return Refuse(UserElsewhere), pick; }
      r := if num.None? then Allocate else Proceed(num.value, adoptFrom);
    }

    /** Users the node hosted and does not report; they are deleted only if purging is allowed. */
    method PurgeMissing(num: nat, incoming: set<string>) returns (missing: set<string>)
      modifies `users, `shared
      ensures missing == if allowUserPurge then Hosted(old(users), num) - incoming else {}
      ensures users == old(users) - missing && shared == Cut(old(shared), missing)
    {
      missing := set u | u in users && users[u] == num && u !in incoming;
      CutNobody(shared);
      if missing != {} && !allowUserPurge { missing := {}; }
      hide Cut;
      var todo := missing;
      ghost var done: set<string> := {};
      while todo != {}
        invariant todo <= missing && done == missing - todo
        invariant users == old(users) - done && shared == Cut(old(shared), done)
        decreases |todo|
      {
        var u :| u in todo;
        CutOneMore(old(shared), done, u);
        users := users - {u};
        shared := shared - {u};
        RemoveSharesByOwner(u);
        todo, done := todo - {u}, done + {u};
      }
      assert done == missing;
    }

    /** Users waiting for this node are routed to it, reported or not. */
    method ClaimOrphans(num: nat, nodeId: string)
      modifies `users, `shared, `orphanedUsers
      ensures orphanedUsers == old(orphanedUsers) - Claimed(old(Model()), nodeId)
      ensures users == RoutedTo(old(users), Claimed(old(Model()), nodeId), num)
      ensures shared == WithLists(old(shared), Claimed(old(Model()), nodeId))
    {
      hide RoutedTo, WithLists, Claimed;
      ghost var m := Model();
      ClaimedAre(m, nodeId);
      NobodyYet(m.users, m.shared, num);
      var todo := orphanedUsers.Keys;
      ghost var done: set<string> := {};
      while todo != {}
        invariant todo <= m.orphans.Keys && done == Claimed(m, nodeId) - todo
        invariant orphanedUsers == m.orphans - done
        invariant users == RoutedTo(m.users, done, num)
        invariant shared == WithLists(m.shared, done)
        decreases |todo|
      {
        var u :| u in todo;
        assert u in orphanedUsers && orphanedUsers[u] == m.orphans[u];
        ClaimStep(m, nodeId, todo, u);
        if orphanedUsers[u] == nodeId {
          RoutedOneMore(m.users, done, u, num);
          MetaBoot.ListedOneMore(m.shared, done, u);
          orphanedUsers := orphanedUsers - {u};
          users := users[u := num];
          if u !in shared { shared := shared[u := []]; }
          done := done + {u};
        }
        todo := todo - {u};
      }
      assert done == Claimed(m, nodeId);
    }

    method AssignOne(num: nat, u: string)
      modifies `users, `shared
      ensures users == old(users)[u := num] && shared == DropOwners(WithLists(old(shared), {u}), {u})
    {
      hide DropOwners, WithLists;
      users := users[u := num];
      ListedIs(shared, u);
      if u !in shared { shared := shared[u := []]; }
      RemoveSharesByOwner(u);
    }

    /** The reported users are routed here, and what they published is cleared for rebuilding. */
    method AssignIncoming(num: nat, incoming: set<string>)
      modifies `users, `shared
      ensures users == RoutedTo(old(users), incoming, num)
      ensures shared == DropOwners(WithLists(old(shared), incoming), incoming)
    {
      hide WithoutOwners, DropOwners, WithLists, RoutedTo;
      ghost var before, from := shared, users;
      NothingAssigned(before);
      NobodyYet(from, before, num);
      var todo := incoming;
      ghost var done: set<string> := {};
      while todo != {}
        invariant todo <= incoming && done == incoming - todo
        invariant users == RoutedTo(from, done, num)
        invariant shared == DropOwners(WithLists(before, {} + done), done)
        decreases |todo|
      {
        var u :| u in todo;
        ListOneMore(before, {}, done, u);
        RoutedOneMore(from, done, u, num);
        AssignOne(num, u);
        todo, done := todo - {u}, done + {u};
      }
      assert done == incoming && {} + done == incoming;
    }

    /** The grants the registration publishes. */
    method GrantAll(req: Req, incoming: set<string>) returns (granted: seq<Grant>)
      requires incoming == Incoming(req)
      modifies `shared
      ensures granted == Grants(req) && shared == AddGrants(old(shared), granted)
    {
      hide Normalize, AddGrants, AddGrant;
      granted := [];
      NoGrants(shared);
      for i := 0 to |req.dirs|
        invariant granted == GrantsFrom(req.dirs[..i], incoming)
        invariant shared == AddGrants(old(shared), granted)
      {
        var d := req.dirs[i];
        assert req.dirs[..i + 1] == req.dirs[..i] + [d];
        GrantsOneMore(req.dirs[..i], d, incoming);
        if d.owner in incoming {
          ghost var base := granted;
          for k := 0 to |d.users|
            invariant granted == base + DirGrants(d, d.users[..k])
            invariant shared == AddGrants(old(shared), granted)
          {
            assert d.users[..k + 1] == d.users[..k] + [d.users[k]];
            DirGrantsOneMore(d, d.users[..k], d.users[k]);
            if d.users[k] != d.owner {
              var g := Grant(d.users[k], d.owner, Normalize(d.path));
              AddGrantsOneMore(old(shared), granted, g);
              AddOne(g);
              granted := granted + [g];
            }
          }
          assert d.users[..|d.users|] == d.users;
        }
      }
      assert req.dirs[..|req.dirs|] == req.dirs;
    }

    method AddOne(g: Grant)
      modifies `shared
      ensures shared == AddGrant(old(shared), g)
    {
      if g.grantee !in shared { shared := shared[g.grantee := []]; }
      if !ContainsShare(shared[g.grantee], g.owner, g.path) {
        shared := shared[g.grantee := shared[g.grantee] + [Visible(g.owner, g.path)]];
      }
    }

    /** The committing critical section: the new tables and the writes to issue. */
    method CommitRegister(req: Req, num: nat, adoptFrom: Option<string>, now: int) returns (writes: seq<Write>)
      modifies `fileservers, `users, `orphanedUsers, `shared
      ensures Model() == Commit(old(Model()), req, num, now)
      ensures writes == RegisterWrites(old(Model()), req, num, adoptFrom)
    {
      hide Hosted, AddGrants, DropOwners, WithLists, Grants, Claimed, Incoming, RoutedTo;
      ghost var m := Model();
      var nodeId := ResolveNodeID(req.fsId, req.address);
      var incoming := set u | u in req.users;
      IncomingIs(req);
      var gone := PurgeMissing(num, incoming);
      ghost var x := shared;
      assert Claimed(Model(), nodeId) == Claimed(m, nodeId) by { ClaimedBy(m, Model(), nodeId); }
      ClaimOrphans(num, nodeId);
      AssignIncoming(num, incoming);
      ListsTwice(x, Claimed(m, nodeId), incoming);
      RoutedTwice(m.users - gone, Claimed(m, nodeId), incoming, num);
      var granted := GrantAll(req, incoming);
      assert users == CommitUsers(m, req, num, nodeId);
      assert shared == CommitShared(m, req, num, nodeId);
      var count := CountUsers(num);
      fileservers := fileservers[num := Node(nodeId, req.address, count, now, Healthy)];
      writes := (if adoptFrom.Some? then [Rename(adoptFrom.value, nodeId)] else [])
        + [Upsert(nodeId, req.address)]
        + (if gone != {} then [RemoveUsers(gone), RemoveSharesInvolving(gone)] else [])
        + [Assign(incoming, nodeId), MetaStore.RemoveSharesByOwner(incoming), AddShares(set g | g in granted)];
    }

    // ---------------------------------------------------------------- logins and routing

    method BuildRoots(user: string) returns (roots: seq<Visible>)
      ensures roots == RootsOf(Model(), user)
      ensures roots == [Visible(user, user)] + (if user in shared then shared[user] else [])
    {
      roots := [Visible(user, user)];
      var mine := if user in shared then shared[user] else [];
      for i := 0 to |mine|
        invariant roots == [Visible(user, user)] + mine[..i]
      {
        roots := roots + [mine[i]];
      }
    }

    /** A login; a first one places the user and owes the store one assignment. */
    method GetRoots(user: string, now: int, ghost store: Store) returns (r: Outcome, ws: seq<Write>, ghost choice: Option<nat>)
      modifies `fileservers, `users, `shared
      ensures Placement(old(Model()), now, choice)
      ensures (Sys(Model(), store, Writing(ws)), r) == DoGetRoots(Sys(old(Model()), store, Writing([])), user, choice)
    {
      hide IsHealthy;
      ws := [];
      var minFS := GetLeastLoaded(now);
      choice := minFS;
      if user == "" { return Refused(NameMissing), ws, choice; }
      if user in users {
        var known := BuildRoots(user);
        return Roots(known), ws, choice;
      }
      if user in orphanedUsers { return Refused(HomeAway(orphanedUsers[user])), ws, choice; }
      if minFS.None? { return Refused(NoHealthyNode), ws, choice; }
      var n := minFS.value;
      users := users[user := n];
      fileservers := fileservers[n := fileservers[n].(load := fileservers[n].load + 1)];
      shared := shared[user := []];
      var roots := BuildRoots(user);
      assert roots == [Visible(user, user)];
      ws := [Assign({user}, fileservers[n].id)];
      r := Roots(roots);
    }

    /** The rollback of a first login whose write failed. */
    method UndoLogin(user: string, n: nat)
      modifies `fileservers, `users, `shared
      ensures Model() == LoginUndo(old(Model()), user, n)
    {
      users := users - {user};
      shared := shared - {user};
      if n in fileservers && fileservers[n].load > 0 {
        fileservers := fileservers[n := fileservers[n].(load := fileservers[n].load - 1)];
      }
    }

    method RootShare(owner: string, grantee: string, path: string, ghost store: Store) returns (r: Outcome, ws: seq<Write>)
      modifies `shared
      ensures (Sys(Model(), store, Writing(ws)), r) == DoShare(Sys(old(Model()), store, Writing([])), owner, grantee, path)
    {
      hide Normalize;
      ws := [];
      var g := Grant(grantee, owner, Normalize(path));
      if owner !in users { return Refused(NoSuchUser(owner)), ws; }
      if grantee !in users { return Refused(NoSuchUser(grantee)), ws; }
      if grantee in shared && ContainsShare(shared[grantee], owner, g.path) { return Done, ws; }
      shared := shared[grantee := (if grantee in shared then shared[grantee] else []) + [Visible(owner, g.path)]];
      r, ws := Done, [AddShares({g})];
    }

    method RootUnshare(owner: string, grantee: string, path: string, ghost store: Store) returns (r: Outcome, ws: seq<Write>)
      modifies `shared
      ensures (Sys(Model(), store, Writing(ws)), r) == DoUnshare(Sys(old(Model()), store, Writing([])), owner, grantee, path)
    {
      hide Normalize;
      ws := [];
      var g := Grant(grantee, owner, Normalize(path));
      if owner !in users { return Refused(NoSuchUser(owner)), ws; }
      if grantee !in users { return Refused(NoSuchUser(grantee)), ws; }
      var kept := RemoveShareEntry(if grantee in shared then shared[grantee] else [], owner, g.path);
      shared := shared[grantee := kept];
      r, ws := Done, [RemoveShare(g)];
    }

    method Heartbeat(fsId: string, address: string, now: int) returns (r: Outcome)
      requires IdsDistinct(Model())
      modifies `fileservers
      ensures (Model(), r) == DoHeartbeat(old(Model()), fsId, address, now)
    {
      hide IdsDistinct;
      if address == "" { return Refused(Bad(EmptyAddress)); }
      var n := FindByNodeID(ResolveNodeID(fsId, address));
      if n.None? { return Refused(UnknownNode); }
      var info := fileservers[n.value];
      if info.address != address { return Refused(OtherAddress(info.address)); }
      fileservers := fileservers[n.value := info.(lastSeen := now, status := Healthy)];
      r := Done;
    }

    method Navigate(user: string, root: string, now: int) returns (r: Outcome)
      ensures r == DoNavigate(Model(), user, root, now)
      ensures r.Routed? <==> BothKnown(Model(), user, root) && Reachable(Model(), root, now) && HasAccess(Model(), user, root)
      ensures r.Routed? ==> r.address == fileservers[users[root]].address
    {
      NavigateExact(Model(), user, root, now);
      if user == "" || root == "" { return Refused(NameMissing); }
      if user !in users { return Refused(NoSuchUser(user)); }
      if root !in users { return Refused(NoSuchUser(root)); }
      var fs := users[root];
      if fs !in fileservers
        || !IsHealthy(Mem(fileservers, users, orphanedUsers, shared, allowUserPurge, heartbeatTimeout), fileservers[fs], now) {
        return Refused(NodeDown);
      }
      var allowed := user == root;
      if !allowed {
        var mine := if user in shared then shared[user] else [];
        var i := 0;
        while i < |mine| && !allowed
          invariant 0 <= i <= |mine|
          invariant allowed <==> exists k :: 0 <= k < i && mine[k].owner == root
        {
          if mine[i].owner == root { allowed := true; }
          i := i + 1;
        }
        assert mine == VisibleTo(Model(), user);
      }
      assert allowed <==> MaySee(Model(), user, root);
      if !allowed { return Refused(NoAccess); }
      r := Outcome.Routed(fileservers[fs].address);
    }

    // ---------------------------------------------------------------- deregistration

    /** Everyone in `gone` leaves every table, with all they published. */
    method Forget(gone: set<string>)
      modifies `users, `orphanedUsers, `shared
      ensures users == old(users) - gone && orphanedUsers == old(orphanedUsers) - gone && shared == Cut(old(shared), gone)
    {
      CutNobody(shared);
      hide Cut;
      var todo := gone;
      ghost var done: set<string> := {};
      while todo != {}
        invariant todo <= gone && done == gone - todo
        invariant users == old(users) - done && orphanedUsers == old(orphanedUsers) - done && shared == Cut(old(shared), done)
        decreases |todo|
      {
        var u :| u in todo;
        CutOneMore(old(shared), done, u);
        users := users - {u};
        orphanedUsers := orphanedUsers - {u};
        shared := shared - {u};
        RemoveSharesByOwner(u);
        todo, done := todo - {u}, done + {u};
      }
      assert done == gone;
    }

    method DeregisterFileServer(fsId: string, address: string, ghost store: Store) returns (r: Outcome, ws: seq<Write>, ghost pick: Option<nat>)
      requires IdsDistinct(Model())
      modifies `fileservers, `users, `orphanedUsers, `shared
      ensures FoundAt(old(Model()), address, pick)
      ensures (Sys(Model(), store, Writing(ws)), r) == DoDeregister(Sys(old(Model()), store, Writing([])), fsId, address, pick)
    {
      hide IdsDistinct, DropOwners, FindNode;
      ws := [];
      var found := FindByAddress(address);
      pick := found;
      if fsId == "" && address == "" { return Refused(NameMissing), ws, pick; }
      var nodeId := fsId;
      var num: Option<nat>;
      if nodeId != "" {
        num := FindByNodeID(nodeId);
      } else {
        num := found;
        if found.Some? { nodeId := fileservers[found.value].id; }
      }
      var removed: set<string> := if num.Some? then set u | u in users && users[u] == num.value else {};
      if nodeId != "" { removed := removed + set u | u in orphanedUsers && orphanedUsers[u] == nodeId; }
      assert removed == Released(Model(), num, nodeId);
      if num.None? && removed == {} { return Done, ws, pick; }
      Forget(removed);
      if num.Some? { fileservers := fileservers - {num.value}; }
      ws := (if removed != {} then [RemoveUsers(removed), RemoveSharesInvolving(removed)] else [])
        + (if num.Some? then [RemoveNode(nodeId)] else []);
      r := Done;
    }
  }

  lemma ClaimStep(m: Mem, nodeId: string, todo: set<string>, u: string)
    requires u in todo && u in m.orphans
    ensures Claimed(m, nodeId) - (todo - {u}) ==
      if m.orphans[u] == nodeId then (Claimed(m, nodeId) - todo) + {u} else Claimed(m, nodeId) - todo
  {
  }

  lemma ClaimedAre(m: Mem, nodeId: string)
    ensures forall u :: u in Claimed(m, nodeId) <==> u in m.orphans && m.orphans[u] == nodeId
  {
  }

  lemma CutNobody(shared: map<string, seq<Visible>>)
    ensures Cut(shared, {}) == shared
  {
    DropNoOwners(shared);
    assert shared - {} == shared;
  }

  lemma NothingAssigned(shared: map<string, seq<Visible>>)
    ensures DropOwners(WithLists(shared, {} + {}), {}) == shared
  {
    MetaBoot.NobodyListed(shared);
    assert WithLists(shared, {} + {}) == WithLists(shared, {});
    DropNoOwners(shared);
  }

  lemma ListedIs(shared: map<string, seq<Visible>>, u: string)
    ensures WithLists(shared, {u}) == if u in shared then shared else shared[u := []]
  {
  }

  lemma NobodyYet(users: map<string, nat>, shared: map<string, seq<Visible>>, num: nat)
    ensures RoutedTo(users, {}, num) == users && WithLists(shared, {}) == shared
  {
  }

  lemma RoutedOneMore(users: map<string, nat>, done: set<string>, u: string, num: nat)
    ensures RoutedTo(users, done + {u}, num) == RoutedTo(users, done, num)[u := num]
  {
  }

  lemma RoutedTwice(users: map<string, nat>, a: set<string>, b: set<string>, num: nat)
    ensures RoutedTo(RoutedTo(users, a, num), b, num) == RoutedTo(users, a + b, num)
  {
  }

  lemma NoGrants(shared: map<string, seq<Visible>>)
    ensures AddGrants(shared, []) == shared
  {
  }

  lemma IncomingIs(req: Req)
    ensures Incoming(req) == set u | u in req.users
  {
  }

  lemma ClaimedBy(m: Mem, k: Mem, nodeId: string)
    requires m.orphans == k.orphans
    ensures Claimed(m, nodeId) == Claimed(k, nodeId)
  {
  }

  lemma ListsTwice(shared: map<string, seq<Visible>>, a: set<string>, b: set<string>)
    ensures WithLists(WithLists(shared, a), b) == WithLists(shared, a + b)
  {
  }
}
